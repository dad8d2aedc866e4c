/** The base64 alphabet of RFC 4648, section 4, as a table and as ranges. */
module Base64Alphabet {

  const ROW0: string := "ABCDEFGHIJKLMNOP"
  const ROW1: string := "QRSTUVWXYZabcdef"
  const ROW2: string := "ghijklmnopqrstuv"
  const ROW3: string := "wxyz0123456789+/"
  const BASE64_CHARS: string := ROW0 + ROW1 + ROW2 + ROW3

  predicate IsBase64(c: char) {
    'A' <= c <= 'Z' || 'a' <= c <= 'z' || '0' <= c <= '9' || c == '+' || c == '/'
  }

  // The first position of a character in the table from position i on; 64 when there is none.
  function FindFrom(c: char, i: nat): nat
    requires i <= 64
    decreases 64 - i
  {
    if i == 64 then 64 else if BASE64_CHARS[i] == c then i else FindFrom(c, i + 1)
  }

  // The character of a six-bit number, by ranges.
  function Letter(i: nat): char
    requires i < 64
  {
    if i < 26 then 'A' + i as char
    else if i < 52 then 'a' + (i - 26) as char
    else if i < 62 then '0' + (i - 52) as char
    else if i == 62 then '+'
    else '/'
  }

  lemma Row0(i: nat)
    requires i < 16
    ensures ROW0[i] == Letter(i)
  {
    assert ROW0[0] == 'A' && ROW0[1] == 'B' && ROW0[2] == 'C' && ROW0[3] == 'D' && ROW0[4] == 'E' && ROW0[5] == 'F';
    assert ROW0[6] == 'G' && ROW0[7] == 'H' && ROW0[8] == 'I' && ROW0[9] == 'J' && ROW0[10] == 'K';
    assert ROW0[11] == 'L' && ROW0[12] == 'M' && ROW0[13] == 'N' && ROW0[14] == 'O' && ROW0[15] == 'P';
  }

  lemma Row1(i: nat)
    requires i < 16
    ensures ROW1[i] == Letter(16 + i)
  {
    assert ROW1[0] == 'Q' && ROW1[1] == 'R' && ROW1[2] == 'S' && ROW1[3] == 'T' && ROW1[4] == 'U' && ROW1[5] == 'V';
    assert ROW1[6] == 'W' && ROW1[7] == 'X' && ROW1[8] == 'Y' && ROW1[9] == 'Z' && ROW1[10] == 'a';
    assert ROW1[11] == 'b' && ROW1[12] == 'c' && ROW1[13] == 'd' && ROW1[14] == 'e' && ROW1[15] == 'f';
  }

  lemma Row2(i: nat)
    requires i < 16
    ensures ROW2[i] == Letter(32 + i)
  {
    assert ROW2[0] == 'g' && ROW2[1] == 'h' && ROW2[2] == 'i' && ROW2[3] == 'j' && ROW2[4] == 'k' && ROW2[5] == 'l';
    assert ROW2[6] == 'm' && ROW2[7] == 'n' && ROW2[8] == 'o' && ROW2[9] == 'p' && ROW2[10] == 'q';
    assert ROW2[11] == 'r' && ROW2[12] == 's' && ROW2[13] == 't' && ROW2[14] == 'u' && ROW2[15] == 'v';
  }

  lemma Row3(i: nat)
    requires i < 16
    ensures ROW3[i] == Letter(48 + i)
  {
    assert ROW3[0] == 'w' && ROW3[1] == 'x' && ROW3[2] == 'y' && ROW3[3] == 'z' && ROW3[4] == '0' && ROW3[5] == '1';
    assert ROW3[6] == '2' && ROW3[7] == '3' && ROW3[8] == '4' && ROW3[9] == '5' && ROW3[10] == '6';
    assert ROW3[11] == '7' && ROW3[12] == '8' && ROW3[13] == '9' && ROW3[14] == '+' && ROW3[15] == '/';
  }

  lemma TableIsRanges(i: nat)
    requires i < 64
    ensures BASE64_CHARS[i] == Letter(i)
  {
    hide Letter;
    if i < 16 { Row0(i); }
    else if i < 32 { Row1(i - 16); }
    else if i < 48 { Row2(i - 32); }
    else { Row3(i - 48); }
  }
}
