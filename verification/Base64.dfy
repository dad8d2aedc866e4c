/** base64_encode and base64_decode, and the encoding of section 4 of RFC 4648 by 24-bit groups. */
module Base64 {
  import opened Base64Alphabet

  type byte = bv8

  function CharOf(v: byte): char
    requires v < 64
  {
    BASE64_CHARS[v as int]
  }

  // The value of an unsigned char, as bits.
  type Cell = x: int | 0 <= x < 256

  function Bits(x: Cell): byte {
    x as byte
  }

  // find on the table, its result cut to eight bits: "not found" becomes 255.
  function Find(c: char): byte {
    Bits(if FindFrom(c, 0) < 64 then FindFrom(c, 0) else 255)
  }

  lemma {:induction false} FindFromLetter(i: nat, k: nat)
    requires k <= i < 64
    ensures FindFrom(Letter(i), k) == i
    decreases i - k
  {
    TableIsRanges(k);
    if k < i { FindFromLetter(i, k + 1); }
  }

  lemma {:induction false} FindFromMissing(c: char, k: nat)
    requires !IsBase64(c) && k <= 64
    ensures FindFrom(c, k) == 64
    decreases 64 - k
  {
    if k < 64 {
      TableIsRanges(k);
      FindFromMissing(c, k + 1);
    }
  }

  lemma FindUndoesCharOf(v: byte)
    requires v < 64
    ensures IsBase64(CharOf(v)) && Find(CharOf(v)) == v
  {
    TableIsRanges(v as int);
    FindFromLetter(v as int, 0);
  }

  function LetterIndex(c: char): nat
    requires IsBase64(c)
  {
    if c == '+' then 62 else if c == '/' then 63
    else if c <= '9' then c as int - 48 + 52
    else if c <= 'Z' then c as int - 65
    else c as int - 97 + 26
  }

  lemma CharOfUndoesFind(c: char)
    requires IsBase64(c)
    ensures Find(c) < 64 && CharOf(Find(c)) == c
  {
    var i := LetterIndex(c);
    assert Letter(i) == c;
    FindFromLetter(i, 0);
    TableIsRanges(i);
    IndexAsByte(i);
  }

  lemma IndexAsByte(i: nat)
    requires i < 64
    ensures i as byte < 64 && (i as byte) as int == i
  {
  }

  // The reference: three octets are one 24-bit number, which is cut into four six-bit numbers.
  function Group(b0: byte, b1: byte, b2: byte): bv24 {
    ((b0 as bv24) << 16) | ((b1 as bv24) << 8) | (b2 as bv24)
  }

  function Low6(n: bv24): (v: byte)
    ensures v < 64
  {
    (n & 0x3f) as byte
  }

  function Low8(n: bv24): byte {
    (n & 0xff) as byte
  }

  function Sextet(n: bv24, k: nat): (v: byte)
    requires k < 4
    ensures v < 64
  {
    if k == 0 then Low6(n >> 18) else if k == 1 then Low6(n >> 12) else if k == 2 then Low6(n >> 6) else Low6(n)
  }

  function Octet(n: bv24, k: nat): byte
    requires k < 3
  {
    if k == 0 then Low8(n >> 16) else if k == 1 then Low8(n >> 8) else Low8(n)
  }

  function Join(v0: byte, v1: byte, v2: byte, v3: byte): bv24 {
    ((v0 as bv24) << 18) | ((v1 as bv24) << 12) | ((v2 as bv24) << 6) | (v3 as bv24)
  }

  function Letters(n: bv24, count: nat): (s: string)
    requires count <= 4
    ensures |s| == count && forall k :: 0 <= k < count ==> s[k] == CharOf(Sextet(n, k))
  {
    seq(count, k requires 0 <= k < count => CharOf(Sextet(n, k)))
  }

  function Octets(n: bv24, count: nat): (b: seq<byte>)
    requires count <= 3
    ensures |b| == count && forall k :: 0 <= k < count ==> b[k] == Octet(n, k)
  {
    seq(count, k requires 0 <= k < count => Octet(n, k))
  }

  function Encode(b: seq<byte>): string {
    if |b| == 0 then ""
    else if |b| == 1 then Letters(Group(b[0], 0, 0), 2) + "=="
    else if |b| == 2 then Letters(Group(b[0], b[1], 0), 3) + "="
    else Letters(Group(b[0], b[1], b[2]), 4) + Encode(b[3..])
  }

  // How many characters at the start belong to the alphabet.
  function Lead(s: string): (n: nat)
    ensures n <= |s| && (forall k :: 0 <= k < n ==> IsBase64(s[k])) && (n < |s| ==> !IsBase64(s[n]))
  {
    if s == "" || !IsBase64(s[0]) then 0 else 1 + Lead(s[1..])
  }

  // Any string: four characters give three octets, and what is left before the first other character
  // gives one octet less than it has characters.
  function Decode(s: string): seq<byte> {
    var n := Lead(s);
    if n == 0 || n == 1 then []
    else if n == 2 then Octets(Join(Find(s[0]), Find(s[1]), 0, 0), 1)
    else if n == 3 then Octets(Join(Find(s[0]), Find(s[1]), Find(s[2]), 0), 2)
    else Octets(Join(Find(s[0]), Find(s[1]), Find(s[2]), Find(s[3])), 3) + Decode(s[4..])
  }

  // The strings of RFC 4648: a multiple of four characters, at most two '=' and only at the end, and
  // no bits set that the last octet does not use.
  function Pads(s: string): (n: nat)
    ensures n <= |s|
  {
    if |s| < 2 || s[|s| - 1] != '=' then 0 else if s[|s| - 2] != '=' then 1 else 2
  }

  predicate Canonical(s: string) {
    var n := |s| - Pads(s);
    && |s| % 4 == 0
    && (forall k :: 0 <= k < n ==> IsBase64(s[k]))
    && (Pads(s) == 1 ==> Find(s[n - 1]) & 0x03 == 0)
    && (Pads(s) == 2 ==> Find(s[n - 1]) & 0x0f == 0)
  }

  // The program's masks and shifts cut the group at the same places.
  function Cut0(b0: byte): byte {
    (b0 & 0xfc) >> 2
  }

  function Cut1(b0: byte, b1: byte): byte {
    ((b0 & 0x03) << 4) + ((b1 & 0xf0) >> 4)
  }

  function Cut2(b1: byte, b2: byte): byte {
    ((b1 & 0x0f) << 2) + ((b2 & 0xc0) >> 6)
  }

  function Cut3(b2: byte): byte {
    b2 & 0x3f
  }

  lemma CutsAreSextets(b0: byte, b1: byte, b2: byte)
    ensures var n := Group(b0, b1, b2);
            Cut0(b0) == Sextet(n, 0) && Cut1(b0, b1) == Sextet(n, 1) && Cut2(b1, b2) == Sextet(n, 2) && Cut3(b2) == Sextet(n, 3)
  {
  }

  function Paste0(v0: byte, v1: byte): byte {
    (v0 << 2) + ((v1 & 0x30) >> 4)
  }

  function Paste1(v1: byte, v2: byte): byte {
    ((v1 & 0xf) << 4) + ((v2 & 0x3c) >> 2)
  }

  function Paste2(v2: byte, v3: byte): byte {
    ((v2 & 0x3) << 6) + v3
  }

  // Each octet depends only on the two six-bit numbers it is pasted from.
  lemma PasteIsOctet0(v0: byte, v1: byte, v2: byte, v3: byte)
    requires v0 < 64 && v1 < 64 && v2 < 64 && v3 < 64
    ensures Paste0(v0, v1) == Octet(Join(v0, v1, v2, v3), 0)
  {
  }

  lemma PasteIsOctet1(v0: byte, v1: byte, v2: byte, v3: byte)
    requires v0 < 64 && v1 < 64 && v2 < 64 && v3 < 64
    ensures Paste1(v1, v2) == Octet(Join(v0, v1, v2, v3), 1)
  {
  }

  lemma PasteIsOctet2(v0: byte, v1: byte, v2: byte, v3: byte)
    requires v0 < 64 && v1 < 64 && v2 < 64 && v3 < 64
    ensures Paste2(v2, v3) == Octet(Join(v0, v1, v2, v3), 2)
  {
  }

  lemma CutThenPaste(b0: byte, b1: byte, b2: byte)
    ensures var n := Group(b0, b1, b2);
            var m := Join(Sextet(n, 0), Sextet(n, 1), Sextet(n, 2), Sextet(n, 3));
            Octet(m, 0) == b0 && Octet(m, 1) == b1 && Octet(m, 2) == b2
  {
  }

  lemma CutThenPasteOne(b0: byte)
    ensures var n := Group(b0, 0, 0);
            Octet(Join(Sextet(n, 0), Sextet(n, 1), 0, 0), 0) == b0 && Sextet(n, 1) & 0x0f == 0
  {
  }

  lemma CutThenPasteTwo(b0: byte, b1: byte)
    ensures var n := Group(b0, b1, 0);
            var m := Join(Sextet(n, 0), Sextet(n, 1), Sextet(n, 2), 0);
            Octet(m, 0) == b0 && Octet(m, 1) == b1
    ensures Sextet(Group(b0, b1, 0), 2) & 0x03 == 0
  {
  }

  lemma PasteThenCut(v0: byte, v1: byte, v2: byte, v3: byte)
    requires v0 < 64 && v1 < 64 && v2 < 64 && v3 < 64
    ensures var m := Join(v0, v1, v2, v3);
            var n := Group(Octet(m, 0), Octet(m, 1), Octet(m, 2));
            Sextet(n, 0) == v0 && Sextet(n, 1) == v1 && Sextet(n, 2) == v2 && Sextet(n, 3) == v3
  {
  }

  lemma PasteThenCutOne(v0: byte, v1: byte)
    requires v0 < 64 && v1 < 64 && v1 & 0x0f == 0
    ensures var n := Group(Octet(Join(v0, v1, 0, 0), 0), 0, 0); Sextet(n, 0) == v0 && Sextet(n, 1) == v1
  {
  }

  lemma PasteThenCutTwo(v0: byte, v1: byte, v2: byte)
    requires v0 < 64 && v1 < 64 && v2 < 64 && v2 & 0x03 == 0
    ensures var m := Join(v0, v1, v2, 0);
            var n := Group(Octet(m, 0), Octet(m, 1), 0);
            Sextet(n, 0) == v0 && Sextet(n, 1) == v1 && Sextet(n, 2) == v2
  {
    NothingLeft(v0, v1, v2);
    hide Group, Join, Octet, Sextet;
    PasteThenCut(v0, v1, v2, 0);
  }

  lemma NothingLeft(v0: byte, v1: byte, v2: byte)
    requires v2 & 0x03 == 0
    ensures Octet(Join(v0, v1, v2, 0), 2) == 0
  {
  }

  lemma LeadOf(s: string, n: nat)
    requires n <= |s| && (forall k :: 0 <= k < n ==> IsBase64(s[k])) && (n < |s| ==> !IsBase64(s[n]))
    ensures Lead(s) == n
  {
    var l := Lead(s);
  }

  lemma LettersFound(n: bv24, count: nat, rest: string)
    requires count <= 4
    ensures forall k :: 0 <= k < count ==> IsBase64((Letters(n, count) + rest)[k])
    ensures forall k :: 0 <= k < count ==> Find((Letters(n, count) + rest)[k]) == Sextet(n, k)
  {
    forall k | 0 <= k < count
      ensures IsBase64((Letters(n, count) + rest)[k]) && Find((Letters(n, count) + rest)[k]) == Sextet(n, k)
    {
      FindUndoesCharOf(Sextet(n, k));
    }
  }

  // Decoding undoes encoding, for every sequence of octets.
  lemma {:induction false} DecodeUndoesEncode(b: seq<byte>)
    ensures Decode(Encode(b)) == b
    decreases |b|
  {
    hide Decode, Group, Letters;
    if |b| == 0 {
      assert Decode("") == [] by { DecodeNothing(); }
    } else if |b| == 1 {
      DecodeOne(b[0]);
    } else if |b| == 2 {
      DecodeTwo(b[0], b[1]);
    } else {
      DecodeThree(b[0], b[1], b[2], Encode(b[3..]));
      DecodeUndoesEncode(b[3..]);
    }
  }

  lemma DecodeNothing()
    ensures Decode("") == []
  {
  }

  lemma DecodeOne(b0: byte)
    ensures Decode(Letters(Group(b0, 0, 0), 2) + "==") == [b0]
  {
    hide Find, CharOf, IsBase64, Group, Join, Octet, Sextet;
    var n := Group(b0, 0, 0);
    var s := Letters(n, 2) + "==";
    LettersFound(n, 2, "==");
    PaddingIsNoLetter();
    LeadOf(s, 2);
    CutThenPasteOne(b0);
  }

  lemma DecodeTwo(b0: byte, b1: byte)
    ensures Decode(Letters(Group(b0, b1, 0), 3) + "=") == [b0, b1]
  {
    hide Find, CharOf, IsBase64, Group, Join, Octet, Sextet;
    var n := Group(b0, b1, 0);
    var s := Letters(n, 3) + "=";
    LettersFound(n, 3, "=");
    PaddingIsNoLetter();
    LeadOf(s, 3);
    CutThenPasteTwo(b0, b1);
  }

  lemma DecodeThree(b0: byte, b1: byte, b2: byte, rest: string)
    ensures Decode(Letters(Group(b0, b1, b2), 4) + rest) == [b0, b1, b2] + Decode(rest)
  {
    hide Find, CharOf, IsBase64, Group, Join, Octet, Sextet;
    var n := Group(b0, b1, b2);
    var s := Letters(n, 4) + rest;
    LettersFound(n, 4, rest);
    LeadAtLeast(s, 4);
    CutThenPaste(b0, b1, b2);
    assert s[4..] == rest;
  }

  lemma PaddingIsNoLetter()
    ensures !IsBase64('=')
  {
  }

  lemma LeadAtLeast(s: string, n: nat)
    requires n <= |s| && forall k :: 0 <= k < n ==> IsBase64(s[k])
    ensures Lead(s) >= n
  {
    var l := Lead(s);
  }

  // Encoding always gives a canonical string, four characters for every three octets begun.
  lemma {:induction false} EncodeIsCanonical(b: seq<byte>)
    ensures Canonical(Encode(b)) && |Encode(b)| == 4 * ((|b| + 2) / 3)
    decreases |b|
  {
    hide Find, CharOf, IsBase64, Group, Sextet;
    var s := Encode(b);
    if |b| == 0 {
    } else if |b| == 1 {
      LettersFound(Group(b[0], 0, 0), 2, "==");
      CutThenPasteOne(b[0]);
    } else if |b| == 2 {
      var n := Group(b[0], b[1], 0);
      LettersFound(n, 3, "=");
      PaddingIsNoLetter();
      CutThenPasteTwo(b[0], b[1]);
    } else {
      EncodeIsCanonical(b[3..]);
      LettersFound(Group(b[0], b[1], b[2]), 4, Encode(b[3..]));
      PaddingIsNoLetter();
      CanonicalFront(s, Encode(b[3..]));
    }
  }

  // Four letters in front do not change whether a string is canonical.
  lemma CanonicalFront(s: string, rest: string)
    requires |s| >= 4 && s[4..] == rest && forall k :: 0 <= k < 4 ==> IsBase64(s[k])
    ensures Canonical(s) <==> Canonical(rest)
  {
    hide Find, IsBase64;
    PaddingIsNoLetter();
    assert forall k :: 0 <= k < |rest| ==> rest[k] == s[k + 4];
    assert |rest| % 4 == 0 && rest != "" ==> Pads(s) == Pads(rest);
  }

  // Re-encoding what was decoded gives the string back exactly when the string is canonical.
  lemma EncodeUndoesDecodeExactly(s: string)
    ensures Encode(Decode(s)) == s <==> Canonical(s)
  {
    EncodeIsCanonical(Decode(s));
    if Canonical(s) { EncodeUndoesDecode(s); }
  }

  lemma {:induction false} EncodeUndoesDecode(s: string)
    requires Canonical(s)
    ensures Encode(Decode(s)) == s
    decreases |s|
  {
    hide Find, CharOf, IsBase64, Group, Join, Octet, Sextet;
    PaddingIsNoLetter();
    if s != "" {
      if Pads(s) == 2 && |s| == 4 {
        LeadOf(s, 2);
        CharOfUndoesFind(s[0]);
        CharOfUndoesFind(s[1]);
        PasteThenCutOne(Find(s[0]), Find(s[1]));
      } else if Pads(s) == 1 && |s| == 4 {
        LeadOf(s, 3);
        CharOfUndoesFind(s[0]);
        CharOfUndoesFind(s[1]);
        CharOfUndoesFind(s[2]);
        PasteThenCutTwo(Find(s[0]), Find(s[1]), Find(s[2]));
      } else {
        LeadAtLeast(s, 4);
        CanonicalFront(s, s[4..]);
        EncodeUndoesDecode(s[4..]);
        FourLetters(s);
      }
    }
  }

  lemma FourLetters(s: string)
    requires |s| >= 4 && forall k :: 0 <= k < 4 ==> IsBase64(s[k])
    ensures Encode(Decode(s)) == s[..4] + Encode(Decode(s[4..]))
  {
    hide Find, CharOf, IsBase64, Group, Join, Octet, Sextet, Encode, Lead;
    LeadAtLeast(s, 4);
    var m := Join(Find(s[0]), Find(s[1]), Find(s[2]), Find(s[3]));
    assert Decode(s) == Octets(m, 3) + Decode(s[4..]);
    EncodeThree(Octets(m, 3), Decode(s[4..]));
    LettersBack(s);
  }

  lemma EncodeThree(b: seq<byte>, rest: seq<byte>)
    requires |b| == 3
    ensures Encode(b + rest) == Letters(Group(b[0], b[1], b[2]), 4) + Encode(rest)
  {
    hide Group, Letters;
    assert (b + rest)[3..] == rest;
  }

  lemma LettersBack(s: string)
    requires |s| >= 4 && forall k :: 0 <= k < 4 ==> IsBase64(s[k])
    ensures var m := Join(Find(s[0]), Find(s[1]), Find(s[2]), Find(s[3]));
            Letters(Group(Octet(m, 0), Octet(m, 1), Octet(m, 2)), 4) == s[..4]
  {
    hide Find, CharOf, IsBase64, Group, Join, Octet, Sextet;
    CharOfUndoesFind(s[0]);
    CharOfUndoesFind(s[1]);
    CharOfUndoesFind(s[2]);
    CharOfUndoesFind(s[3]);
    PasteThenCut(Find(s[0]), Find(s[1]), Find(s[2]), Find(s[3]));
  }

  // The program: the same cuts, pastes and tails on two small arrays.
  method CutGroup(three: array<byte>, four: array<byte>)
    requires three.Length == 3 && four.Length == 4 && three != four
    modifies four
    ensures forall k :: 0 <= k < 4 ==> four[k] == Sextet(Group(three[0], three[1], three[2]), k)
  {
    hide Sextet, Group, Cut0, Cut1, Cut2, Cut3;
    CutsAreSextets(three[0], three[1], three[2]);
    four[0] := Cut0(three[0]);
    four[1] := Cut1(three[0], three[1]);
    four[2] := Cut2(three[1], three[2]);
    four[3] := Cut3(three[2]);
  }

  method AppendLetters(ret: string, four: array<byte>, count: nat, ghost n: bv24) returns (longer: string)
    requires four.Length == 4 && count <= 4 && forall k :: 0 <= k < 4 ==> four[k] == Sextet(n, k)
    ensures longer == ret + Letters(n, count)
  {
    hide CharOf, Sextet;
    longer := ret;
    var j := 0;
    while j < count
      invariant j <= count && longer == ret + Letters(n, count)[..j]
    {
      longer := longer + [CharOf(four[j])];
      assert Letters(n, count)[..j + 1] == Letters(n, count)[..j] + [CharOf(Sextet(n, j))];
      j := j + 1;
    }
    assert Letters(n, count)[..count] == Letters(n, count);
  }

  method Base64Encode(bytes: seq<byte>) returns (ret: string)
    ensures ret == Encode(bytes)
  {
    hide Letters, Group, Sextet, Encode;
    ret := "";
    var i, p := 0, 0;
    var three, four := new byte[3], new byte[4];
    ghost var left := bytes;
    while p < |bytes|
      invariant i < 3 && i <= p <= |bytes| && left == bytes[p - i..]
      invariant forall k :: 0 <= k < i ==> three[k] == left[k]
      invariant ret + Encode(left) == Encode(bytes)
    {
      three[i] := bytes[p];
      i, p := i + 1, p + 1;
      if i == 3 {
        CutGroup(three, four);
        EncodeNext(ret, left, left[3..]);
        ret := AppendLetters(ret, four, 4, Group(three[0], three[1], three[2]));
        i := 0;
        left := left[3..];
      }
    }
    if i != 0 {
      ret := EncodeTail(ret, three, four, i, left);
    } else {
      EncodeNothing();
    }
  }

  lemma EncodeNothing()
    ensures Encode([]) == ""
  {
  }

  // The one or two octets left over, with zeros for the missing ones and '=' for the missing letters.
  method EncodeTail(done: string, three: array<byte>, four: array<byte>, start: nat, ghost tail: seq<byte>)
    returns (ret: string)
    requires three.Length == 3 && four.Length == 4 && three != four
    requires 0 < start == |tail| < 3 && forall k :: 0 <= k < start ==> three[k] == tail[k]
    modifies three, four
    ensures ret == done + Encode(tail)
  {
    hide Letters, Group, Sextet;
    var j := start;
    while j < 3
      invariant start <= j <= 3 && (forall k :: 0 <= k < start ==> three[k] == tail[k])
      invariant forall k :: start <= k < j ==> three[k] == 0
    {
      three[j] := 0;
      j := j + 1;
    }
    CutGroup(three, four);
    ret := AppendLetters(done, four, start + 1, Group(three[0], three[1], three[2]));
    ghost var letters, padding := ret, if start == 1 then "==" else "=";
    var i := start;
    while i < 3
      invariant start <= i <= 3 && ret == letters + padding[..i - start]
    {
      ret := ret + "=";
      assert padding[..i - start + 1] == padding[..i - start] + "=";
      i := i + 1;
    }
  }

  lemma EncodeNext(done: string, left: seq<byte>, rest: seq<byte>)
    requires |left| >= 3 && left[3..] == rest
    ensures done + Letters(Group(left[0], left[1], left[2]), 4) + Encode(rest) == done + Encode(left)
  {
    hide Letters, Group;
    var letters := Letters(Group(left[0], left[1], left[2]), 4);
    assert done + letters + Encode(rest) == done + (letters + Encode(rest));
  }

  // A cell holds a character's code first and then its position in the table.
  function FindCell(code: Cell): Cell {
    if FindFrom(code as char, 0) < 64 then FindFrom(code as char, 0) else 255
  }

  lemma FoundCell(c: char)
    requires IsBase64(c)
    ensures c as int < 256 && Bits(FindCell(c as int)) == Find(c) < 64
  {
    CharOfUndoesFind(c);
  }

  // find on all four cells, in place.
  method FindAll(four: array<Cell>)
    requires four.Length == 4
    modifies four
    ensures forall k :: 0 <= k < 4 ==> four[k] == FindCell(old(four[k]))
  {
    hide FindCell;
    var i := 0;
    while i < 4
      invariant i <= 4
      invariant forall k :: 0 <= k < i ==> four[k] == FindCell(old(four[k]))
      invariant forall k :: i <= k < 4 ==> four[k] == old(four[k])
    {
      four[i] := FindCell(four[i]);
      i := i + 1;
    }
  }

  method PasteGroup(four: array<Cell>, three: array<byte>)
    requires three.Length == 3 && four.Length == 4
    modifies three
    ensures three[0] == Paste0(Bits(four[0]), Bits(four[1]))
    ensures three[1] == Paste1(Bits(four[1]), Bits(four[2]))
    ensures three[2] == Paste2(Bits(four[2]), Bits(four[3]))
  {
    hide Bits;
    three[0] := (Bits(four[0]) << 2) + ((Bits(four[1]) & 0x30) >> 4);
    three[1] := ((Bits(four[1]) & 0xf) << 4) + ((Bits(four[2]) & 0x3c) >> 2);
    three[2] := ((Bits(four[2]) & 0x3) << 6) + Bits(four[3]);
  }

  method AppendOctets(done: seq<byte>, three: array<byte>, count: nat) returns (ret: seq<byte>)
    requires three.Length == 3 && count <= 3
    ensures ret == done + three[..count]
  {
    ret := done;
    var j := 0;
    while j < count
      invariant j <= count && ret == done + three[..j]
    {
      ret := ret + [three[j]];
      assert three[..j + 1] == three[..j] + [three[j]];
      j := j + 1;
    }
  }

  method Base64Decode(s: string) returns (ret: seq<byte>)
    ensures ret == Decode(s)
  {
    hide Decode, Find, FindCell, IsBase64, Bits;
    ret := [];
    var i, p := 0, 0;
    var four, three := new Cell[4], new byte[3];
    ghost var left := s;
    while p < |s| && s[p] != '=' && IsBase64(s[p])
      invariant i < 4 && i <= p <= |s| && left == s[p - i..]
      invariant forall k :: 0 <= k < i ==> IsBase64(left[k]) && four[k] == left[k] as int
      invariant ret + Decode(left) == Decode(s)
    {
      FoundCell(s[p]);
      four[i] := s[p] as int;
      i, p := i + 1, p + 1;
      if i == 4 {
        ret := DecodeGroup(ret, four, three, left);
        i := 0;
        left := left[4..];
      }
    }
    LeadOf(left, i) by { PaddingIsNoLetter(); }
    if i != 0 {
      ret := DecodeTail(ret, four, three, i, left);
    } else {
      NothingLeads(left);
    }
  }

  lemma NothingLeads(s: string)
    requires Lead(s) == 0
    ensures Decode(s) == []
  {
  }

  method DecodeGroup(done: seq<byte>, four: array<Cell>, three: array<byte>, ghost left: string) returns (ret: seq<byte>)
    requires three.Length == 3 && four.Length == 4 && |left| >= 4
    requires forall k :: 0 <= k < 4 ==> IsBase64(left[k]) && four[k] == left[k] as int
    modifies four, three
    ensures ret + Decode(left[4..]) == done + Decode(left)
  {
    hide Decode, Find, FindCell, IsBase64, Bits, Paste0, Paste1, Paste2;
    FoundCells(left, 4);
    FindAll(four);
    PasteGroup(four, three);
    ret := AppendOctets(done, three, 3);
    DecodeFour(left);
    assert three[..3] == [three[0], three[1], three[2]];
    assert done + three[..3] + Decode(left[4..]) == done + (three[..3] + Decode(left[4..]));
  }

  lemma FoundCells(s: string, n: nat)
    requires n <= |s| && forall k :: 0 <= k < n ==> IsBase64(s[k])
    ensures forall k :: 0 <= k < n ==> s[k] as int < 256 && Bits(FindCell(s[k] as int)) == Find(s[k])
  {
    forall k | 0 <= k < n ensures s[k] as int < 256 && Bits(FindCell(s[k] as int)) == Find(s[k]) {
      FoundCell(s[k]);
    }
  }

  lemma DecodeFour(s: string)
    requires |s| >= 4 && forall k :: 0 <= k < 4 ==> IsBase64(s[k])
    ensures Decode(s) == [Paste0(Find(s[0]), Find(s[1])), Paste1(Find(s[1]), Find(s[2])), Paste2(Find(s[2]), Find(s[3]))]
                         + Decode(s[4..])
  {
    hide Find, IsBase64, Join, Octet, Lead;
    LeadAtLeast(s, 4);
    assert Decode(s) == Octets(Join(Find(s[0]), Find(s[1]), Find(s[2]), Find(s[3])), 3) + Decode(s[4..]);
    hide Decode;
    CharOfUndoesFind(s[0]);
    CharOfUndoesFind(s[1]);
    CharOfUndoesFind(s[2]);
    CharOfUndoesFind(s[3]);
    PastedOctets(Find(s[0]), Find(s[1]), Find(s[2]), Find(s[3]));
  }

  lemma PastedOctets(v0: byte, v1: byte, v2: byte, v3: byte)
    requires v0 < 64 && v1 < 64 && v2 < 64 && v3 < 64
    ensures Octets(Join(v0, v1, v2, v3), 3) == [Paste0(v0, v1), Paste1(v1, v2), Paste2(v2, v3)]
  {
    hide Join, Octet, Paste0, Paste1, Paste2;
    PasteIsOctet0(v0, v1, v2, v3);
    PasteIsOctet1(v0, v1, v2, v3);
    PasteIsOctet2(v0, v1, v2, v3);
  }

  // The one, two or three letters left over.  The missing ones are nulls, which are not found and
  // become 255, but no octet that is kept is pasted from them.
  method DecodeTail(done: seq<byte>, four: array<Cell>, three: array<byte>, count: nat, ghost left: string)
    returns (ret: seq<byte>)
    requires three.Length == 3 && four.Length == 4 && 0 < count == Lead(left) < 4
    requires forall k :: 0 <= k < count ==> IsBase64(left[k]) && four[k] == left[k] as int
    modifies four, three
    ensures ret == done + Decode(left)
  {
    hide Decode, Find, FindCell, IsBase64, Bits, Paste0, Paste1, Paste2;
    var j := count;
    while j < 4
      invariant count <= j <= 4
      invariant forall k :: 0 <= k < count ==> four[k] == left[k] as int
      invariant forall k :: count <= k < j ==> four[k] == 0
    {
      four[j] := 0;
      j := j + 1;
    }
    FoundCells(left, count);
    FindAll(four);
    assert forall k :: 0 <= k < count ==> Bits(four[k]) == Find(left[k]);
    MissingIs255();
    assert forall k :: count <= k < 4 ==> four[k] == 255;
    PasteGroup(four, three);
    ret := AppendOctets(done, three, count - 1);
    DecodeFew(left);
    assert count == 2 ==> three[..count - 1] == [three[0]];
    assert count == 3 ==> three[..count - 1] == [three[0], three[1]];
  }

  lemma MissingIs255()
    ensures FindCell(0) == 255
  {
    FindFromMissing('\0', 0);
  }

  lemma DecodeFew(s: string)
    requires 0 < Lead(s) < 4
    ensures Lead(s) == 1 ==> Decode(s) == []
    ensures Lead(s) == 2 ==> Decode(s) == [Paste0(Find(s[0]), Find(s[1]))]
    ensures Lead(s) == 3 ==> Decode(s) == [Paste0(Find(s[0]), Find(s[1])), Paste1(Find(s[1]), Find(s[2]))]
  {
    hide Find, IsBase64, Join, Octet, Paste0, Paste1, Lead;
    forall k | 0 <= k < Lead(s) ensures Find(s[k]) < 64 { CharOfUndoesFind(s[k]); }
    if Lead(s) == 2 {
      PasteIsOctet0(Find(s[0]), Find(s[1]), 0, 0);
    } else if Lead(s) == 3 {
      PasteIsOctet0(Find(s[0]), Find(s[1]), Find(s[2]), 0);
      PasteIsOctet1(Find(s[0]), Find(s[1]), Find(s[2]), 0);
    }
  }

  // Test vectors of RFC 4648, section 10.
  lemma EncodesFoobar()
    ensures Encode([102]) == "Zg==" && Encode([102, 111]) == "Zm8=" && Encode([102, 111, 111, 98, 97, 114]) == "Zm9vYmFy"
  {
    var b := [102, 111, 111, 98, 97, 114];
    GroupOfOne();
    GroupOfTwo();
    GroupFoo();
    GroupBar();
    assert b[3..] == [98, 97, 114] && b[3..][3..] == [];
    hide Letters, Group;
  }

  lemma GroupOfOne()
    ensures Letters(Group(102, 0, 0), 2) == "Zg"
  {
    SextetsOf(102, 0, 0);
  }

  lemma GroupOfTwo()
    ensures Letters(Group(102, 111, 0), 3) == "Zm8"
  {
    SextetsOf(102, 111, 0);
  }

  lemma GroupFoo()
    ensures Letters(Group(102, 111, 111), 4) == "Zm9v"
  {
    SextetsOf(102, 111, 111);
  }

  lemma GroupBar()
    ensures Letters(Group(98, 97, 114), 4) == "YmFy"
  {
    SextetsOf(98, 97, 114);
  }

  lemma SextetsOf(b0: byte, b1: byte, b2: byte)
    ensures var n := Group(b0, b1, b2);
            Sextet(n, 0) == Cut0(b0) && Sextet(n, 1) == Cut1(b0, b1) && Sextet(n, 2) == Cut2(b1, b2) && Sextet(n, 3) == Cut3(b2)
  {
    CutsAreSextets(b0, b1, b2);
    hide Sextet, Group, Cut0, Cut1, Cut2, Cut3;
  }
}
