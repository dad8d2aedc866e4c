/** write_int and write_str: laying a field out in the growing buffer and filling its digits in place. */
module IntegerWriter {
  import opened RadixDigits
  import opened OutputBuffer
  import opened IntegerField
  import opened DecimalPrinters

  // A pointer into the storage that was the buffer's when the pointer was taken.
  datatype CharPtr = CharPtr(store: array<char>, pos: int)

  // The content size when precision adds zeros: they are laid out as a numeric field of this width.
  function NumberSize(l: Layout, numDigits: nat): nat {
    |l.prefix| + l.zeros + numDigits
  }

  // The one case in which storage is replaced after the digit pointer is taken: fill is appended on the
  // right of a number with added zeros, and that growth exceeds what was reserved.
  predicate StalePointer(size: nat, capacity: nat, spec: FormatSpec, prefix: string, numDigits: nat) {
    var l := LayoutOf(spec, prefix, numDigits);
    && l.zeros > 0 && l.right > 0
    && size + spec.width > CapacityFor(CapacityFor(capacity, spec.width), size + NumberSize(l, numDigits))
  }

  function FieldSize(l: Layout, numDigits: nat): nat {
    l.left + |l.prefix| + l.inner + l.zeros + numDigits + l.right
  }

  // Every cell of the field that starts at `at`, except the digits, holds what the layout says.
  ghost predicate LaidOut(s: seq<char>, at: nat, l: Layout, numDigits: nat, fill: char) {
    var prefix := at + l.left;
    var inner := prefix + |l.prefix|;
    var zeros := inner + l.inner;
    var digits := zeros + l.zeros;
    var right := digits + numDigits;
    && right + l.right <= |s|
    && (forall i :: at <= i < prefix ==> s[i] == fill)
    && (forall i :: prefix <= i < inner ==> s[i] == l.prefix[i - prefix])
    && (forall i :: inner <= i < zeros ==> s[i] == fill)
    && (forall i :: zeros <= i < digits ==> s[i] == '0')
    && (forall i :: right <= i < right + l.right ==> s[i] == fill)
  }

  lemma LaidOutParts(s: seq<char>, at: nat, l: Layout, numDigits: nat, fill: char)
    requires LaidOut(s, at, l, numDigits, fill)
    ensures var prefix := at + l.left;
            var inner := prefix + |l.prefix|;
            var zeros := inner + l.inner;
            var from := zeros + l.zeros;
            && from + numDigits + l.right <= |s|
            && s[at..prefix] == Repeat(fill, l.left) && s[prefix..inner] == l.prefix
            && s[inner..zeros] == Repeat(fill, l.inner) && s[zeros..from] == Repeat('0', l.zeros)
  {
  }

  lemma LaidOutBefore(s: seq<char>, at: nat, l: Layout, numDigits: nat, fill: char)
    requires LaidOut(s, at, l, numDigits, fill)
    ensures at + |Before(l, fill)| + numDigits + l.right <= |s|
    ensures s[at..at + |Before(l, fill)|] == Before(l, fill)
  {
    hide LaidOut, Repeat;
    LaidOutParts(s, at, l, numDigits, fill);
    var prefix, inner := at + l.left, at + l.left + |l.prefix|;
    CutMiddle(s, at, prefix, inner, inner + l.inner, inner + l.inner + l.zeros);
  }

  lemma CutMiddle(s: seq<char>, a: nat, b: nat, c: nat, d: nat, e: nat)
    requires a <= b <= c <= d <= e <= |s|
    ensures s[a..e] == s[a..b] + s[b..c] + s[c..d] + s[d..e]
  {
    assert s[a..b] + s[b..c] == s[a..c];
    assert s[a..c] + s[c..d] == s[a..d];
    assert s[a..d] + s[d..e] == s[a..e];
  }

  lemma LaidOutAround(s: seq<char>, size: nat, at: nat, l: Layout, numDigits: nat, fill: char)
    requires LaidOut(s, at, l, numDigits, fill) && size == at + FieldSize(l, numDigits) <= |s|
    ensures var from := at + |Before(l, fill)|;
            && from + numDigits + l.right == size
            && s[..size] == (s[..at] + Before(l, fill)) + s[from..from + numDigits] + After(l, fill)
  {
    LaidOutBefore(s, at, l, numDigits, fill);
    var from := at + |Before(l, fill)|;
    IsRepeat(s[from + numDigits..size], fill);
    hide LaidOut, Before;
    CutInFour(s, at, from, from + numDigits, size);
  }

  lemma CutInFour(s: seq<char>, a: nat, b: nat, c: nat, d: nat)
    requires a <= b <= c <= d <= |s|
    ensures s[..d] == (s[..a] + s[a..b]) + s[b..c] + s[c..d]
  {
  }

  // Fill appended to a number laid out with nothing after it.
  lemma LaidOutExtended(s: seq<char>, t: seq<char>, at: nat, prefix: string, zeros: nat, numDigits: nat, fill: char, n: nat)
    requires LaidOut(s, at, Layout(0, prefix, 0, zeros, 0), numDigits, fill)
    requires var size := at + |prefix| + zeros + numDigits;
             && size + n <= |t|
             && (forall i :: 0 <= i < size ==> t[i] == s[i])
             && (forall i :: size <= i < size + n ==> t[i] == fill)
    ensures LaidOut(t, at, Layout(0, prefix, 0, zeros, n), numDigits, fill)
  {
  }

  lemma DigitsReplaced(now: seq<char>, head: seq<char>, cells: seq<char>, tail: seq<char>, digits: seq<char>)
    requires |now| == |head + cells + tail| && |digits| == |cells|
    requires forall i :: |head| <= i < |head| + |cells| ==> now[i] == digits[i - |head|]
    requires forall i :: 0 <= i < |now| && !(|head| <= i < |head| + |cells|) ==> now[i] == (head + cells + tail)[i]
    ensures now == head + digits + tail
  {
  }

  lemma IsRepeat(s: seq<char>, fill: char)
    requires forall i :: 0 <= i < |s| ==> s[i] == fill
    ensures s == Repeat(fill, |s|)
  {
  }

  function StringPadding(size: nat, spec: FormatSpec): nat {
    if spec.width > size then spec.width - size else 0
  }

  // Where the string starts in its field.
  function StringOffset(size: nat, spec: FormatSpec): nat {
    if spec.align == ALIGN_RIGHT then StringPadding(size, spec)
    else if spec.align == ALIGN_CENTER then StringPadding(size, spec) / 2
    else 0
  }

  // A string and fill around it, cell by cell, is the string's field.
  lemma StringFieldCells(now: seq<char>, before: seq<char>, s: string, spec: FormatSpec)
    requires |now| == |before| + |s| + StringPadding(|s|, spec)
    requires forall i :: 0 <= i < |before| ==> now[i] == before[i]
    requires var out := |before| + StringOffset(|s|, spec);
             && (forall i :: out <= i < out + |s| ==> now[i] == s[i - out])
             && (forall i :: |before| <= i < out || out + |s| <= i < |now| ==> now[i] == spec.fill)
    ensures now == before + StringField(s, spec)
  {
    hide StringField, StringOffset, StringPadding;
    StringFieldParts(s, spec);
    var field := StringField(s, spec);
    forall i | 0 <= i < |now| ensures now[i] == (before + field)[i] {
      if i >= |before| { assert (before + field)[i] == field[i - |before|]; }
    }
  }

  lemma StringFieldParts(s: string, spec: FormatSpec)
    ensures var offset, field := StringOffset(|s|, spec), StringField(s, spec);
            && |field| == |s| + StringPadding(|s|, spec) && offset <= StringPadding(|s|, spec)
            && (forall i :: 0 <= i < offset ==> field[i] == spec.fill)
            && (forall i :: offset <= i < offset + |s| ==> field[i] == s[i - offset])
            && (forall i :: offset + |s| <= i < |field| ==> field[i] == spec.fill)
  {
  }

  // The layout when the precision adds zeros.
  lemma ZerosLayout(spec: FormatSpec, prefix: string, numDigits: nat)
    requires spec.precision > numDigits
    ensures var l := LayoutOf(spec, prefix, numDigits);
            var p := if |prefix| > 0 && prefix[|prefix| - 1] == '0' then prefix[..|prefix| - 1] else prefix;
            var size := |p| + spec.precision;
            var padding := if size >= spec.width then 0 else spec.width - size;
            l == if spec.align == ALIGN_LEFT then Layout(0, p, 0, spec.precision - numDigits, padding)
                 else Layout(padding, p, 0, spec.precision - numDigits, 0)
  {
  }

  lemma StaleMeaning(size: nat, capacity: nat, spec: FormatSpec, prefix: string, numDigits: nat)
    requires spec.precision > numDigits
    ensures var l := LayoutOf(spec, prefix, numDigits);
            StalePointer(size, capacity, spec, prefix, numDigits) <==>
              l.right > 0 && size + FieldSize(l, numDigits)
                             > CapacityFor(CapacityFor(capacity, spec.width), size + NumberSize(l, numDigits))
  {
  }

  // write_int's digits go to storage the buffer has already left.
  predicate Misplaced(size: nat, capacity: nat, value: int, spec: FormatSpec) {
    StalePointer(size, capacity, spec, Prefix(value, spec), |Magnitude(value, spec.typeCode)|)
  }

  // Storage is not replaced before the digit pointer is taken.
  predicate NumberFits(size: nat, capacity: nat, value: int, spec: FormatSpec) {
    var n := |Magnitude(value, spec.typeCode)|;
    spec.width <= capacity && size + NumberSize(LayoutOf(spec, Prefix(value, spec), n), n) <= capacity
  }

  function DigitsFrom(size: nat, value: int, spec: FormatSpec): nat {
    size + |Before(LayoutOf(spec, Prefix(value, spec), |Magnitude(value, spec.typeCode)|), spec.fill)|
  }

  function DigitsTo(size: nat, value: int, spec: FormatSpec): nat {
    DigitsFrom(size, value, spec) + |Magnitude(value, spec.typeCode)|
  }

  // The field of a value with other characters where its digits belong.
  function FieldAround(value: int, spec: FormatSpec, cells: string): string {
    var l := LayoutOf(spec, Prefix(value, spec), |Magnitude(value, spec.typeCode)|);
    Before(l, spec.fill) + cells + After(l, spec.fill)
  }

  lemma FieldAssembled(before: string, value: int, spec: FormatSpec, cells: string)
    ensures var digits := Magnitude(value, spec.typeCode);
            var l := LayoutOf(spec, Prefix(value, spec), |digits|);
            && (before + Before(l, spec.fill)) + cells + After(l, spec.fill) == before + FieldAround(value, spec, cells)
            && FieldAround(value, spec, digits) == Field(value, spec)
            && DigitsFrom(|before|, value, spec) == |before + Before(l, spec.fill)|
  {
  }

  lemma {:induction false} LengthIgnoresCase(n: nat, radix: Radix, upper: bool)
    ensures |InRadix(n, radix, upper)| == |InRadix(n, radix, false)|
    decreases n
  {
    QuotientIsZero(n, radix);
    if n >= radix { LengthIgnoresCase(n / radix, radix, upper); }
  }

  // One more step of the digit loops, and their end.
  lemma QuotientIsZero(n: nat, radix: Radix)
    ensures n / radix == 0 <==> n < radix
    ensures n >= radix ==> n / radix < n
    ensures n < radix ==> n % radix == n
    ensures forall upper :: n < radix ==> InRadix(n, radix, upper) == [DigitChar(n, upper)]
    ensures forall upper :: n >= radix ==>
              InRadix(n, radix, upper) == InRadix(n / radix, radix, upper) + [DigitChar(n % radix, upper)]
  {
    QuotientAndRemainder(n, radix);
    if n >= radix && n / radix == 0 {
      assert false;
    }
  }

  class BasicWriter {
    const buffer: MemoryBuffer

    constructor (b: MemoryBuffer)
      ensures buffer == b
    {
      buffer := b;
    }

    // There is room for this reservation and for this many more characters.
    ghost predicate Roomy(reserved: nat, n: nat)
      reads buffer
    {
      reserved <= buffer.capacity && buffer.size + n <= buffer.capacity
    }

    // Grows the buffer by n characters and returns a pointer to the new area.
    method GrowBuffer(n: nat) returns (p: CharPtr)
      requires buffer.Valid()
      modifies buffer
      ensures buffer.Valid() && buffer.size == old(buffer.size) + n
      ensures buffer.capacity == CapacityFor(old(buffer.capacity), old(buffer.size) + n)
      ensures p == CharPtr(buffer.ptr, old(buffer.size))
      ensures if old(buffer.size) + n > old(buffer.capacity) then fresh(buffer.ptr) else buffer.ptr == old(buffer.ptr)
      ensures forall i :: 0 <= i < old(buffer.size) ==> buffer.ptr[i] == old(buffer.ptr[i])
    {
      var size := buffer.size;
      buffer.Resize(size + n);
      return CharPtr(buffer.ptr, size);
    }

    // std::fill_n and std::copy into the buffer's storage.
    static method FillN(store: array<char>, from: nat, n: nat, fill: char)
      requires from + n <= store.Length
      modifies store
      ensures forall i :: from <= i < from + n ==> store[i] == fill
      ensures forall i :: 0 <= i < store.Length && !(from <= i < from + n) ==> store[i] == old(store[i])
    {
      forall i | from <= i < from + n {
        store[i] := fill;
      }
    }

    static method Copy(store: array<char>, from: nat, s: string)
      requires from + |s| <= store.Length
      modifies store
      ensures forall i :: from <= i < from + |s| ==> store[i] == s[i - from]
      ensures forall i :: 0 <= i < store.Length && !(from <= i < from + |s|) ==> store[i] == old(store[i])
    {
      forall i | 0 <= i < |s| {
        store[from + i] := s[i];
      }
    }

    // Centres content of the given size and returns where it starts.
    static method FillPadding(store: array<char>, from: nat, total: nat, content: nat, fill: char) returns (at: nat)
      requires content <= total && from + total <= store.Length
      modifies store
      ensures at == from + (total - content) / 2
      ensures forall i :: from <= i < at || at + content <= i < from + total ==> store[i] == fill
      ensures forall i :: 0 <= i < store.Length && !(from <= i < at || at + content <= i < from + total)
                ==> store[i] == old(store[i])
    {
      var padding := total - content;
      var leftPadding := padding / 2;
      FillN(store, from, leftPadding, fill);
      at := from + leftPadding;
      FillN(store, at + content, padding - leftPadding, fill);
    }

    method WriteStr(s: string, spec: FormatSpec)
      requires buffer.Valid()
      modifies buffer, buffer.ptr
      ensures buffer.Valid() && (buffer.ptr == old(buffer.ptr) || fresh(buffer.ptr))
      ensures buffer.Contents() == old(buffer.Contents()) + StringField(s, spec)
    {
      hide StringField;
      ghost var before := buffer.Contents();
      var out: nat;
      if spec.width > |s| {
        var p := GrowBuffer(spec.width);
        out := PadString(p.store, p.pos, |s|, spec);
      } else {
        var p := GrowBuffer(|s|);
        out := p.pos;
      }
      assert out == |before| + StringOffset(|s|, spec);
      ghost var after := buffer.ptr[..];
      Copy(buffer.ptr, out, s);
      assert forall i :: 0 <= i < |before| ==> after[i] == before[i];
      assert forall i :: |before| <= i < out || out + |s| <= i < buffer.size ==> buffer.ptr[i] == after[i];
      StringFieldCells(buffer.Contents(), before, s, spec);
    }

    // Fills around a string of the given size and returns where it goes.
    static method PadString(store: array<char>, from: nat, size: nat, spec: FormatSpec) returns (out: nat)
      requires size < spec.width && from + spec.width <= store.Length
      modifies store
      ensures out == from + StringOffset(size, spec)
      ensures forall i :: from <= i < out || out + size <= i < from + spec.width ==> store[i] == spec.fill
      ensures forall i :: 0 <= i < from ==> store[i] == old(store[i])
    {
      out := from;
      if spec.align == ALIGN_RIGHT {
        FillN(store, out, spec.width - size, spec.fill);
        out := out + spec.width - size;
      } else if spec.align == ALIGN_CENTER {
        out := FillPadding(store, out, spec.width, size, spec.fill);
      } else {
        FillN(store, out + size, spec.width - size, spec.fill);
      }
    }

    // Lays out everything but the digits and returns a pointer to the last digit's cell.  This is the
    // part without added zeros; the layout is that of a specifier with this width, fill and alignment.
    method PreparePlain(numDigits: nat, width: nat, fill: char, align: Alignment, prefix: string)
      returns (p: CharPtr, ghost l: Layout)
      requires buffer.Valid() && numDigits > 0
      modifies buffer, buffer.ptr
      ensures l == LayoutOf(DEFAULT_SPEC.(width := width, fill := fill, align := align), prefix, numDigits)
      ensures buffer.Valid() && buffer.size == old(buffer.size) + FieldSize(l, numDigits)
      ensures buffer.capacity == CapacityFor(old(buffer.capacity), buffer.size)
      ensures if buffer.size > old(buffer.capacity) then fresh(buffer.ptr) else buffer.ptr == old(buffer.ptr)
      ensures p == CharPtr(buffer.ptr, buffer.size - l.right - 1)
      ensures forall i :: 0 <= i < old(buffer.size) ==> buffer.ptr[i] == old(buffer.ptr[i])
      ensures LaidOut(buffer.ptr[..], old(buffer.size), l, numDigits, fill)
      ensures buffer.ptr == old(buffer.ptr) ==>
                forall i :: p.pos - numDigits < i <= p.pos ==> buffer.ptr[i] == old(buffer.ptr[i])
    {
      l := LayoutOf(DEFAULT_SPEC.(width := width, fill := fill, align := align), prefix, numDigits);
      var size := |prefix| + numDigits;
      if width <= size {
        p := GrowBuffer(size);
        Copy(p.store, p.pos, prefix);
        return CharPtr(p.store, p.pos + size - 1), l;
      }
      p := GrowBuffer(width);
      hide LayoutOf;
      var last := Align(p.store, p.pos, numDigits, width, fill, align, prefix, l);
      return CharPtr(p.store, last), l;
    }

    // The width is larger than prefix and digits: place them by alignment and fill the rest.
    static method Align(store: array<char>, from: nat, numDigits: nat, width: nat, fill: char, align: Alignment,
                        prefix: string, ghost l: Layout) returns (last: nat)
      requires numDigits > 0 && |prefix| + numDigits < width && from + width <= store.Length
      requires l == LayoutOf(DEFAULT_SPEC.(width := width, fill := fill, align := align), prefix, numDigits)
      modifies store
      ensures FieldSize(l, numDigits) == width && last == from + width - l.right - 1
      ensures LaidOut(store[..], from, l, numDigits, fill)
      ensures forall i :: 0 <= i < store.Length && !(from <= i < from + width && !(last - numDigits < i <= last))
                ==> store[i] == old(store[i])
    {
      hide LaidOut;
      if align == ALIGN_LEFT {
        last := AlignLeft(store, from, numDigits, width, fill, prefix);
      } else if align == ALIGN_CENTER {
        last := AlignCenter(store, from, numDigits, width, fill, prefix);
      } else {
        AlignRight(store, from, numDigits, width, fill, align, prefix);
        last := from + width - 1;
      }
    }

    static method AlignLeft(store: array<char>, from: nat, numDigits: nat, width: nat, fill: char, prefix: string)
      returns (last: nat)
      requires numDigits > 0 && |prefix| + numDigits < width && from + width <= store.Length
      modifies store
      ensures LaidOut(store[..], from, Layout(0, prefix, 0, 0, width - |prefix| - numDigits), numDigits, fill)
      ensures last == from + |prefix| + numDigits - 1
      ensures forall i :: 0 <= i < store.Length && !(from <= i < from + width && !(last - numDigits < i <= last))
                ==> store[i] == old(store[i])
    {
      var size := |prefix| + numDigits;
      Copy(store, from, prefix);
      FillN(store, from + size, width - size, fill);
      last := from + size - 1;
    }

    static method AlignCenter(store: array<char>, from: nat, numDigits: nat, width: nat, fill: char, prefix: string)
      returns (last: nat)
      requires numDigits > 0 && |prefix| + numDigits < width && from + width <= store.Length
      modifies store
      ensures var padding := width - |prefix| - numDigits;
              && LaidOut(store[..], from, Layout(padding / 2, prefix, 0, 0, padding - padding / 2), numDigits, fill)
              && last == from + padding / 2 + |prefix| + numDigits - 1
      ensures forall i :: 0 <= i < store.Length && !(from <= i < from + width && !(last - numDigits < i <= last))
                ==> store[i] == old(store[i])
    {
      var size := |prefix| + numDigits;
      var at := FillPadding(store, from, width, size, fill);
      Copy(store, at, prefix);
      last := at + size - 1;
    }

    // The alignments that put the digits at the end of the field.
    static method AlignRight(store: array<char>, from: nat, numDigits: nat, width: nat, fill: char, align: Alignment,
                             prefix: string)
      requires numDigits > 0 && |prefix| + numDigits < width && from + width <= store.Length
      modifies store
      ensures var padding := width - |prefix| - numDigits;
              LaidOut(store[..], from, if align == ALIGN_NUMERIC then Layout(0, prefix, padding, 0, 0)
                                       else Layout(padding, prefix, 0, 0, 0), numDigits, fill)
      ensures forall i :: 0 <= i < store.Length && !(from <= i < from + width - numDigits) ==> store[i] == old(store[i])
    {
      var start, end, size := from, from + width, |prefix| + numDigits;
      if align == ALIGN_NUMERIC {
        if |prefix| != 0 {
          Copy(store, start, prefix);
          start := start + |prefix|;
          size := size - |prefix|;
        }
      } else {
        Copy(store, end - size, prefix);
      }
      FillN(store, start, end - size - start, fill);
    }

    // Lays out everything but the digits.  The buffer may have moved to new storage since the returned
    // pointer was taken; its digit cells then hold whatever the old storage's held.
    method PrepareIntBuffer(numDigits: nat, spec: FormatSpec, prefix: string) returns (p: CharPtr, ghost l: Layout)
      requires buffer.Valid() && numDigits > 0
      modifies buffer, buffer.ptr
      ensures l == LayoutOf(spec, prefix, numDigits)
      ensures buffer.Valid() && buffer.size == old(buffer.size) + FieldSize(l, numDigits)
      ensures buffer.ptr == old(buffer.ptr) || fresh(buffer.ptr)
      ensures p.store == old(buffer.ptr) || fresh(p.store)
      ensures p.pos == buffer.size - l.right - 1 < p.store.Length
      ensures p.store == buffer.ptr <==> !StalePointer(old(buffer.size), old(buffer.capacity), spec, prefix, numDigits)
      ensures p.store != buffer.ptr ==> old(Roomy(spec.width, NumberSize(l, numDigits))) ==> p.store == old(buffer.ptr)
      ensures forall i :: 0 <= i < old(buffer.size) ==> buffer.ptr[i] == old(buffer.ptr[i])
      ensures LaidOut(buffer.ptr[..], old(buffer.size), l, numDigits, spec.fill)
      ensures forall i :: p.pos - numDigits < i <= p.pos ==> buffer.ptr[i] == p.store[i]
      ensures p.store == old(buffer.ptr) ==>
                forall i :: p.pos - numDigits < i <= p.pos ==> p.store[i] == old(buffer.ptr[i])
    {
      hide LaidOut;
      l := LayoutOf(spec, prefix, numDigits);
      if spec.precision > numDigits {
        p := PrepareWithZeros(numDigits, spec, prefix, l);
      } else {
        ghost var plain;
        p, plain := PreparePlain(numDigits, spec.width, spec.fill, spec.align, prefix);
      }
    }

    // The precision exceeds the number of digits: zeros are added by a numeric field inside the field.
    method PrepareWithZeros(numDigits: nat, spec: FormatSpec, prefix: string, ghost l: Layout) returns (p: CharPtr)
      requires buffer.Valid() && numDigits > 0 && spec.precision > numDigits
      requires l == LayoutOf(spec, prefix, numDigits)
      modifies buffer, buffer.ptr
      ensures buffer.Valid() && buffer.size == old(buffer.size) + FieldSize(l, numDigits)
      ensures buffer.ptr == old(buffer.ptr) || fresh(buffer.ptr)
      ensures p.store == old(buffer.ptr) || fresh(p.store)
      ensures p.pos == buffer.size - l.right - 1 < p.store.Length
      ensures p.store == buffer.ptr <==> !StalePointer(old(buffer.size), old(buffer.capacity), spec, prefix, numDigits)
      ensures p.store != buffer.ptr ==> old(Roomy(spec.width, NumberSize(l, numDigits))) ==> p.store == old(buffer.ptr)
      ensures forall i :: 0 <= i < old(buffer.size) ==> buffer.ptr[i] == old(buffer.ptr[i])
      ensures LaidOut(buffer.ptr[..], old(buffer.size), l, numDigits, spec.fill)
      ensures forall i :: p.pos - numDigits < i <= p.pos ==> buffer.ptr[i] == p.store[i]
      ensures p.store == old(buffer.ptr) ==>
                forall i :: p.pos - numDigits < i <= p.pos ==> p.store[i] == old(buffer.ptr[i])
    {
      hide LayoutOf, LaidOut, StalePointer, FieldSize, NumberSize;
      ZerosLayout(spec, prefix, numDigits);
      StaleMeaning(buffer.size, buffer.capacity, spec, prefix, numDigits);
      var shortened := prefix;
      if |prefix| > 0 && prefix[|prefix| - 1] == '0' {
        shortened := prefix[..|prefix| - 1];
      }
      var numberSize := |shortened| + spec.precision;
      if numberSize >= spec.width {
        p := Number(numDigits, spec.fill, shortened, spec.precision, l);
        return;
      }
      p := FillAround(numDigits, numberSize, spec, shortened, l);
    }

    // The width exceeds that number.
    method FillAround(numDigits: nat, numberSize: nat, spec: FormatSpec, prefix: string, ghost l: Layout) returns (p: CharPtr)
      requires buffer.Valid() && spec.precision > numDigits > 0 && |prefix| + spec.precision == numberSize < spec.width
      requires l == if spec.align == ALIGN_LEFT then Layout(0, prefix, 0, spec.precision - numDigits, spec.width - numberSize)
                    else Layout(spec.width - numberSize, prefix, 0, spec.precision - numDigits, 0)
      modifies buffer, buffer.ptr
      ensures buffer.Valid() && buffer.size == old(buffer.size) + FieldSize(l, numDigits)
      ensures buffer.ptr == old(buffer.ptr) || fresh(buffer.ptr)
      ensures p.store == old(buffer.ptr) || fresh(p.store)
      ensures p.pos == buffer.size - l.right - 1 < p.store.Length
      ensures var reserved := CapacityFor(old(buffer.capacity), spec.width);
              && (p.store == buffer.ptr <==>
                   (l.right > 0 ==> buffer.size <= CapacityFor(reserved, old(buffer.size) + NumberSize(l, numDigits))))
              && (p.store != buffer.ptr ==> old(Roomy(spec.width, NumberSize(l, numDigits))) ==> p.store == old(buffer.ptr))
      ensures forall i :: 0 <= i < old(buffer.size) ==> buffer.ptr[i] == old(buffer.ptr[i])
      ensures LaidOut(buffer.ptr[..], old(buffer.size), l, numDigits, spec.fill)
      ensures forall i :: p.pos - numDigits < i <= p.pos ==> buffer.ptr[i] == p.store[i]
      ensures p.store == old(buffer.ptr) ==>
                forall i :: p.pos - numDigits < i <= p.pos ==> p.store[i] == old(buffer.ptr[i])
    {
      hide LaidOut, FieldSize, NumberSize;
      buffer.Reserve(spec.width);
      var fillSize := spec.width - numberSize;
      if spec.align != ALIGN_LEFT {
        p := FillThenNumber(numDigits, fillSize, spec.fill, prefix, spec.precision, l);
      } else {
        p := NumberThenFill(numDigits, fillSize, spec.fill, prefix, spec.precision, l);
      }
    }

    // A number with added zeros and nothing around it.
    method Number(numDigits: nat, ghost fill: char, prefix: string, precision: nat, ghost l: Layout)
      returns (p: CharPtr)
      requires buffer.Valid() && precision > numDigits > 0
      requires l == Layout(0, prefix, 0, precision - numDigits, 0)
      modifies buffer, buffer.ptr
      ensures buffer.Valid() && buffer.size == old(buffer.size) + FieldSize(l, numDigits)
      ensures buffer.capacity == CapacityFor(old(buffer.capacity), buffer.size)
      ensures if buffer.size > old(buffer.capacity) then fresh(buffer.ptr) else buffer.ptr == old(buffer.ptr)
      ensures p == CharPtr(buffer.ptr, buffer.size - 1)
      ensures forall i :: 0 <= i < old(buffer.size) ==> buffer.ptr[i] == old(buffer.ptr[i])
      ensures LaidOut(buffer.ptr[..], old(buffer.size), l, numDigits, fill)
      ensures p.store == old(buffer.ptr) ==>
                forall i :: p.pos - numDigits < i <= p.pos ==> p.store[i] == old(buffer.ptr[i])
    {
      ghost var plain;
      p, plain := PreparePlain(numDigits, |prefix| + precision, '0', ALIGN_NUMERIC, prefix);
    }

    method FillThenNumber(numDigits: nat, fillSize: nat, fill: char, prefix: string, precision: nat, ghost l: Layout)
      returns (p: CharPtr)
      requires buffer.Valid() && precision > numDigits > 0
      requires l == Layout(fillSize, prefix, 0, precision - numDigits, 0)
      modifies buffer, buffer.ptr
      ensures buffer.Valid() && buffer.size == old(buffer.size) + FieldSize(l, numDigits)
      ensures buffer.ptr == old(buffer.ptr) || fresh(buffer.ptr)
      ensures p == CharPtr(buffer.ptr, buffer.size - 1)
      ensures forall i :: 0 <= i < old(buffer.size) ==> buffer.ptr[i] == old(buffer.ptr[i])
      ensures LaidOut(buffer.ptr[..], old(buffer.size), l, numDigits, fill)
      ensures p.store == old(buffer.ptr) ==>
                forall i :: p.pos - numDigits < i <= p.pos ==> p.store[i] == old(buffer.ptr[i])
    {
      AppendFill(fillSize, fill);
      p := Number(numDigits, fill, prefix, precision, Layout(0, prefix, 0, precision - numDigits, 0));
    }

    // Here the pointer is taken before the buffer grows once more.
    method NumberThenFill(numDigits: nat, fillSize: nat, fill: char, prefix: string, precision: nat, ghost l: Layout)
      returns (p: CharPtr)
      requires buffer.Valid() && precision > numDigits > 0
      requires l == Layout(0, prefix, 0, precision - numDigits, fillSize)
      modifies buffer, buffer.ptr
      ensures buffer.Valid() && buffer.size == old(buffer.size) + FieldSize(l, numDigits)
      ensures buffer.ptr == old(buffer.ptr) || fresh(buffer.ptr)
      ensures p.store == old(buffer.ptr) || fresh(p.store)
      ensures p.pos == buffer.size - l.right - 1 < p.store.Length
      ensures p.store == buffer.ptr <==>
                buffer.size <= CapacityFor(old(buffer.capacity), old(buffer.size) + NumberSize(l, numDigits))
      ensures old(buffer.size) + NumberSize(l, numDigits) <= old(buffer.capacity) ==> p.store == old(buffer.ptr)
      ensures forall i :: 0 <= i < old(buffer.size) ==> buffer.ptr[i] == old(buffer.ptr[i])
      ensures LaidOut(buffer.ptr[..], old(buffer.size), l, numDigits, fill)
      ensures forall i :: p.pos - numDigits < i <= p.pos ==> buffer.ptr[i] == p.store[i]
      ensures p.store == old(buffer.ptr) ==>
                forall i :: p.pos - numDigits < i <= p.pos ==> p.store[i] == old(buffer.ptr[i])
    {
      hide LaidOut;
      ghost var at := buffer.size;
      p := Number(numDigits, fill, prefix, precision, Layout(0, prefix, 0, precision - numDigits, 0));
      ghost var storage := buffer.ptr[..];
      AppendFill(fillSize, fill);
      LaidOutExtended(storage, buffer.ptr[..], at, prefix, precision - numDigits, numDigits, fill, fillSize);
    }

    method AppendFill(n: nat, fill: char)
      requires buffer.Valid()
      modifies buffer, buffer.ptr
      ensures buffer.Valid() && buffer.size == old(buffer.size) + n
      ensures buffer.capacity == CapacityFor(old(buffer.capacity), buffer.size)
      ensures if buffer.size > old(buffer.capacity) then fresh(buffer.ptr) else buffer.ptr == old(buffer.ptr)
      ensures forall i :: 0 <= i < old(buffer.size) ==> buffer.ptr[i] == old(buffer.ptr[i])
      ensures forall i :: old(buffer.size) <= i < buffer.size ==> buffer.ptr[i] == fill
      ensures buffer.ptr == old(buffer.ptr) ==>
                forall i :: buffer.size <= i < buffer.ptr.Length ==> buffer.ptr[i] == old(buffer.ptr[i])
      ensures buffer.ptr != old(buffer.ptr) ==> old(buffer.ptr)[..] == old(buffer.ptr[..])
    {
      var q := GrowBuffer(n);
      FillN(q.store, q.pos, n, fill);
    }

    // do { ++count } while ((n >>= shift) != 0), with radix two to the shift.
    static method CountRadixDigits(abs: nat, radix: Radix) returns (numDigits: nat)
      ensures numDigits == |InRadix(abs, radix, false)|
    {
      hide InRadix, DigitChar;
      var n: nat := abs / radix;
      numDigits := 1;
      QuotientIsZero(abs, radix);
      while n != 0
        invariant n < abs || n == 0
        invariant |InRadix(abs, radix, false)| == numDigits + if n == 0 then 0 else |InRadix(n, radix, false)|
        decreases n
      {
        QuotientAndRemainder(n, radix);
        QuotientIsZero(n, radix);
        n := n / radix;
        numDigits := numDigits + 1;
      }
    }

    // n >> shift and n & mask, where the radix is two to the shift.
    static function Shifted(n: nat, radix: Radix): nat {
      n / radix
    }

    static function LowBits(n: nat, radix: Radix): (d: nat)
      ensures d < radix
    {
      n % radix
    }

    // do { *p-- = digit(n & mask) } while ((n >>= shift) != 0).
    static method WriteRadixDigits(store: array<char>, last: nat, abs: nat, radix: Radix, upper: bool)
      requires |InRadix(abs, radix, upper)| <= last + 1 <= store.Length
      modifies store
      ensures var first := last + 1 - |InRadix(abs, radix, upper)|;
              && (forall i :: first <= i <= last ==> store[i] == InRadix(abs, radix, upper)[i - first])
              && (forall i :: 0 <= i < store.Length && !(first <= i <= last) ==> store[i] == old(store[i]))
    {
      ghost var digits := InRadix(abs, radix, upper);
      ghost var first := last + 1 - |digits|;
      hide InRadix, DigitChar, LowBits, Shifted;
      var n: nat := abs;
      var p: int := last;
      LastDigit(n, radix, upper, digits, |digits|);
      store[p] := RadixDigit(LowBits(n, radix), radix, upper);
      n, p := Shifted(n, radix), p - 1;
      while n != 0
        invariant first - 1 <= p < last && (n == 0 ==> p == first - 1)
        invariant n != 0 ==> InRadix(n, radix, upper) == digits[..p + 1 - first]
        invariant forall i :: p < i <= last ==> store[i] == digits[i - first]
        invariant forall i :: 0 <= i < store.Length && !(p < i <= last) ==> store[i] == old(store[i])
        decreases n
      {
        LastDigit(n, radix, upper, digits, p + 1 - first);
        store[p] := RadixDigit(LowBits(n, radix), radix, upper);
        n, p := Shifted(n, radix), p - 1;
      }
    }

    static lemma LastDigit(n: nat, radix: Radix, upper: bool, digits: string, k: nat)
      requires k <= |digits| && InRadix(n, radix, upper) == digits[..k]
      ensures k > 0 && DigitChar(LowBits(n, radix), upper) == digits[k - 1]
      ensures if Shifted(n, radix) == 0 then k == 1 else InRadix(Shifted(n, radix), radix, upper) == digits[..k - 1]
      ensures Shifted(n, radix) < n || n == 0
    {
      QuotientAndRemainder(n, radix);
      QuotientIsZero(n, radix);
      hide DigitChar;
    }

    // Hexadecimal digits come from a table, the others from arithmetic on '0'.
    static function RadixDigit(d: nat, radix: Radix, upper: bool): (c: char)
      requires d < radix
      ensures c == DigitChar(d, upper)
    {
      DigitValueOfChar(d, upper);
      if radix <= 8 then '0' + d as char else if upper then UPPER[d] else LOWER[d]
    }

    // Writes the digits of a value whose last digit goes to p.
    static method WriteDigits(p: CharPtr, abs: nat, typeCode: char, numDigits: nat)
      requires KnownType(typeCode) && numDigits == |Magnitude(abs, typeCode)|
      requires numDigits - 1 <= p.pos < p.store.Length
      modifies p.store
      ensures var first := p.pos + 1 - numDigits;
              && (forall i :: first <= i <= p.pos ==> p.store[i] == Magnitude(abs, typeCode)[i - first])
              && (forall i :: 0 <= i < p.store.Length && !(first <= i <= p.pos) ==> p.store[i] == old(p.store[i]))
    {
      hide InRadix, DIGITS;
      if typeCode == NO_TYPE || typeCode == 'd' {
        var _ := FormatDecimal(p.store, p.pos + 1 - numDigits, abs, numDigits);
        assert p.store[p.pos + 1 - numDigits..p.pos + 1] == Magnitude(abs, typeCode);
      } else {
        WriteRadixDigits(p.store, p.pos, abs, RadixOf(typeCode), typeCode == 'X');
      }
    }

    static method CountFieldDigits(abs: nat, bits: Width, typeCode: char) returns (numDigits: nat)
      requires KnownType(typeCode) && abs < Modulus(bits)
      ensures numDigits == |Magnitude(abs, typeCode)|
    {
      if typeCode == NO_TYPE || typeCode == 'd' {
        numDigits := CountDigits(abs, bits);
      } else {
        numDigits := CountRadixDigits(abs, RadixOf(typeCode));
        LengthIgnoresCase(abs, RadixOf(typeCode), typeCode == 'X');
      }
    }

    // Writes value, or reports an unknown type and writes nothing.  When the digits are misplaced, the
    // field's digit cells keep whatever was in that storage.
    method WriteInt(value: int, bits: Width, spec: FormatSpec) returns (ok: bool)
      requires buffer.Valid() && Representable(value, bits)
      modifies buffer, buffer.ptr
      ensures buffer.Valid() && ok == KnownType(spec.typeCode)
      ensures buffer.ptr == old(buffer.ptr) || fresh(buffer.ptr)
      ensures !ok ==> buffer.Contents() == old(buffer.Contents())
      ensures ok ==> !Misplaced(old(buffer.size), old(buffer.capacity), value, spec) ==>
                buffer.Contents() == old(buffer.Contents()) + Field(value, spec)
      ensures ok ==> Misplaced(old(buffer.size), old(buffer.capacity), value, spec) ==>
                NumberFits(old(buffer.size), old(buffer.capacity), value, spec) ==>
                DigitsTo(old(buffer.size), value, spec) <= old(buffer.ptr).Length
                && buffer.Contents() == old(buffer.Contents()) + FieldAround(value, spec,
                     old(buffer.ptr[DigitsFrom(buffer.size, value, spec)..DigitsTo(buffer.size, value, spec)]))
    {
      hide LayoutOf, StalePointer, InRadix, Before, After, Prefix, NumberSize, FieldAround, Field, DigitsFrom;
      if !KnownType(spec.typeCode) {
        return false;
      }
      AbsValueIsMagnitude(value, bits);
      var abs := AbsValue(value, bits);
      ghost var digits := Magnitude(value, spec.typeCode);
      assert Magnitude(abs, spec.typeCode) == digits;
      hide Magnitude;
      var numDigits := CountFieldDigits(abs, bits, spec.typeCode);
      var p, l, head, cells := PrepareField(numDigits, spec, Prefix(value, spec));
      WriteDigits(p, abs, spec.typeCode, numDigits);
      if p.store == buffer.ptr {
        DigitsReplaced(buffer.Contents(), head, cells, After(l, spec.fill), digits);
        FieldAssembled(old(buffer.Contents()), value, spec, digits);
      } else {
        FieldAssembled(old(buffer.Contents()), value, spec, cells);
      }
      ok := true;
    }

    // operator<<(int) and its siblings: no specification at all.
    method Put(value: int, bits: Width)
      requires buffer.Valid() && Representable(value, bits)
      modifies buffer, buffer.ptr
      ensures buffer.Valid() && buffer.Contents() == old(buffer.Contents()) + SignedDecimal(value)
      ensures buffer.ptr == old(buffer.ptr) || fresh(buffer.ptr)
    {
      hide Misplaced, Field, FieldAround, NumberFits, DigitsFrom, DigitsTo, InRadix;
      DefaultFieldIsDecimal(buffer.size, buffer.capacity, value);
      var ok := WriteInt(value, bits, DEFAULT_SPEC);
    }

    // prepare_int_buffer seen through the contents: a head, the digit cells and a tail.
    method PrepareField(numDigits: nat, spec: FormatSpec, prefix: string)
      returns (p: CharPtr, ghost l: Layout, ghost head: string, ghost cells: string)
      requires buffer.Valid() && numDigits > 0
      modifies buffer, buffer.ptr
      ensures l == LayoutOf(spec, prefix, numDigits) && head == old(buffer.Contents()) + Before(l, spec.fill)
      ensures buffer.Valid() && |cells| == numDigits
      ensures buffer.Contents() == head + cells + After(l, spec.fill)
      ensures p.pos == |head| + numDigits - 1 < p.store.Length
      ensures p.store == old(buffer.ptr) || fresh(p.store)
      ensures buffer.ptr == old(buffer.ptr) || fresh(buffer.ptr)
      ensures p.store == buffer.ptr <==> !StalePointer(old(buffer.size), old(buffer.capacity), spec, prefix, numDigits)
      ensures p.store != buffer.ptr ==> old(Roomy(spec.width, NumberSize(l, numDigits))) ==>
                |head| + numDigits <= old(buffer.ptr).Length && cells == old(buffer.ptr[|head|..|head| + numDigits])
    {
      hide LaidOut, LayoutOf, StalePointer, Before, After;
      ghost var before, size := buffer.Contents(), buffer.size;
      p, l := PrepareIntBuffer(numDigits, spec, prefix);
      head := before + Before(l, spec.fill);
      LaidOutAround(buffer.ptr[..], buffer.size, size, l, numDigits, spec.fill);
      cells := buffer.ptr[|head|..|head| + numDigits];
      assert buffer.ptr[..size] == before;
      if p.store == old(buffer.ptr) {
        assert forall i :: |head| <= i < |head| + numDigits ==> buffer.ptr[i] == old(buffer.ptr[i]);
        assert cells == old(buffer.ptr[..])[|head|..|head| + numDigits];
      }
    }
  }

  // Exactly when write_int misplaces the digits: added zeros, left alignment, fill to add, and the whole
  // field does not fit in the storage that the reservation and the number alone have secured.
  lemma MisplacedExactly(size: nat, capacity: nat, value: int, spec: FormatSpec)
    ensures var n := |Magnitude(value, spec.typeCode)|;
            var absorbed := if spec.hash && spec.typeCode == 'o' then 1 else 0;
            var number := |Prefix(value, spec)| - absorbed + spec.precision;
            Misplaced(size, capacity, value, spec) <==>
              && spec.align == ALIGN_LEFT && spec.precision > n && spec.width > number
              && size + spec.width > CapacityFor(CapacityFor(capacity, spec.width), size + number)
  {
    hide Magnitude, CapacityFor, Prefix;
    PrefixEndsInZero(value, spec);
  }

  const PADDED_LEFT: FormatSpec := DEFAULT_SPEC.(width := 20, align := ALIGN_LEFT, precision := 5)

  // A run in which it happens: the digit of 7 goes to the inline storage the buffer has just left, and the
  // output shows the character that storage held before.
  method DigitsLost() returns (written: string)
    ensures written == Repeat('x', 490) + "0000x" + Repeat(' ', 15)
    ensures written != Repeat('x', 490) + Field(7, PADDED_LEFT)
  {
    var buffer := UsedBuffer();
    var writer := new BasicWriter(buffer);
    SevenPadded();
    MisplacedExactly(490, 500, 7, PADDED_LEFT);
    hide Field, FieldAround, InRadix, Misplaced, NumberFits, DigitsFrom, DigitsTo, Magnitude, Prefix;
    assert buffer.ptr[494..495] == "x";
    var ok := writer.WriteInt(7, 32, PADDED_LEFT);
    written := buffer.Contents();
    assert written[494] == 'x' && (Repeat('x', 490) + ("00007" + Repeat(' ', 15)))[494] == '7';
  }

  // 490 characters written, and an 'x' in every cell of the inline storage.
  method UsedBuffer() returns (buffer: MemoryBuffer)
    ensures fresh(buffer) && buffer.Valid() && buffer.Contents() == Repeat('x', 490)
    ensures buffer.capacity == 500 && buffer.ptr[..] == Repeat('x', 500)
    ensures fresh(buffer.ptr)
  {
    buffer := new MemoryBuffer();
    buffer.Append(Repeat('x', 500));
    assert buffer.ptr[..] == buffer.Contents() == Repeat('x', 500);
    buffer.Resize(490);
  }

  lemma SevenPadded()
    ensures Magnitude(7, NO_TYPE) == "7" && Prefix(7, PADDED_LEFT) == ""
    ensures Field(7, PADDED_LEFT) == "00007" + Repeat(' ', 15)
    ensures FieldAround(7, PADDED_LEFT, "x") == "0000x" + Repeat(' ', 15)
    ensures DigitsFrom(490, 7, PADDED_LEFT) == 494 && DigitsTo(490, 7, PADDED_LEFT) == 495
    ensures NumberFits(490, 500, 7, PADDED_LEFT)
  {
    assert Magnitude(7, NO_TYPE) == [LOWER[7]] == "7";
    assert Repeat('0', 4) == "0000";
  }

  // With no specification at all the field is the plain decimal.
  lemma DefaultFieldIsDecimal(size: nat, capacity: nat, value: int)
    ensures Field(value, DEFAULT_SPEC) == SignedDecimal(value)
    ensures !Misplaced(size, capacity, value, DEFAULT_SPEC)
  {
    hide InRadix, Prefix, Repeat;
    var digits, sign := Magnitude(value, NO_TYPE), Prefix(value, DEFAULT_SPEC);
    assert LayoutOf(DEFAULT_SPEC, sign, |digits|) == Layout(0, sign, 0, 0, 0);
    assert sign == SignOf(value, DEFAULT_SPEC) by { PlainPrefix(value); }
    assert Repeat(' ', 0) == "" && Repeat('0', 0) == "";
    assert "" + sign + "" + "" + digits + "" == sign + digits;
  }

  lemma PlainPrefix(value: int)
    ensures Prefix(value, DEFAULT_SPEC) == SignOf(value, DEFAULT_SPEC)
  {
  }

  // The three decimal printers agree on every value of either 64-bit type.
  method PrintersAgree(value: int) returns (fast: string, direct: string, written: string)
    requires Representable(value, 64)
    ensures fast == direct == written == SignedDecimal(value)
  {
    hide InRadix, Field;
    if value < 0x8000_0000_0000_0000 {
      var f := new FormatInt.Signed(value);
      fast := f.Str();
    } else {
      var f := new FormatInt.Unsigned(value);
      fast := f.Str();
    }
    var chars := new char[|fast|];
    var end := FormatDecimalAt(chars, 0, value, 64);
    direct := chars[..end];
    var buffer := new MemoryBuffer();
    var writer := new BasicWriter(buffer);
    writer.Put(value, 64);
    written := buffer.Contents();
  }
}
