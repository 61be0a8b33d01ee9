/** ULID bit packing (internal/ledger/ulid.go).

    Bytes and five-bit groups are numbers: `(x >> s) & 1` is Bit(x, s), `x |= 1 << s` is
    WithBit(x, s), and `(v << 1) | bit` is 2 * v + bit. */
module Ulid {
  import opened Wrappers
  import opened Sorting

  // ---------- Bits ----------

  type Byte = n: nat | n < 256

  predicate Odd(n: nat) {
    n % 2 == 1
  }

  function One(b: bool): nat {
    if b then 1 else 0
  }

  predicate Bit(x: nat, s: nat) {
    if s == 0 then Odd(x) else Bit(x / 2, s - 1)
  }

  function WithBit(x: nat, s: nat): nat {
    if s == 0 then (if Odd(x) then x else x + 1) else 2 * WithBit(x / 2, s - 1) + x % 2
  }

  function Pow2(n: nat): nat {
    if n == 0 then 1 else 2 * Pow2(n - 1)
  }

  lemma PowersOfTwo()
    ensures Pow2(5) == 32 && Pow2(8) == 256
  {
    assert Pow2(3) == 8 && Pow2(5) == 4 * Pow2(3) && Pow2(8) == 8 * Pow2(5);
  }

  lemma {:induction false} WithBitSets(x: nat, s: nat, t: nat)
    ensures Bit(WithBit(x, s), t) <==> t == s || Bit(x, t)
  {
    if s > 0 && t > 0 {
      WithBitSets(x / 2, s - 1, t - 1);
      assert WithBit(x, s) / 2 == WithBit(x / 2, s - 1);
    }
  }

  lemma {:induction false} DoubleBelow(h: nat, b: nat, limit: nat)
    requires h < limit && b < 2
    ensures 2 * h + b < 2 * limit
  {
  }

  lemma {:induction false} WithBitFits(x: nat, s: nat, n: nat)
    requires s < n && x < Pow2(n)
    ensures WithBit(x, s) < Pow2(n)
  {
    if s > 0 {
      WithBitFits(x / 2, s - 1, n - 1);
      DoubleBelow(WithBit(x / 2, s - 1), x % 2, Pow2(n - 1));
    } else if !Odd(x) {
      DoubleBelow(x / 2, 1, Pow2(n - 1));
    }
  }

  lemma {:induction false} ZeroHasNoBits(s: nat)
    ensures !Bit(0, s)
  {
    if s > 0 {
      ZeroHasNoBits(s - 1);
    }
  }

  lemma {:induction false} SameBits(x: nat, y: nat, n: nat)
    requires x < Pow2(n) && y < Pow2(n)
    requires forall s :: 0 <= s < n ==> Bit(x, s) == Bit(y, s)
    ensures x == y
  {
    if n > 0 {
      forall s | 0 <= s < n - 1 ensures Bit(x / 2, s) == Bit(y / 2, s) {
        assert Bit(x, s + 1) == Bit(y, s + 1);
      }
      SameBits(x / 2, y / 2, n - 1);
      assert Bit(x, 0) == Bit(y, 0);
    }
  }

  // The highest differing bit decides the order.
  lemma {:induction false} HighestBitDecides(x: nat, y: nat, s: nat, n: nat)
    requires s < n && x < Pow2(n) && y < Pow2(n) && !Bit(x, s) && Bit(y, s)
    requires forall t :: s < t < n ==> Bit(x, t) == Bit(y, t)
    ensures x < y
  {
    forall t | 0 <= t < n - 1 && (s == 0 || s - 1 < t) ensures Bit(x / 2, t) == Bit(y / 2, t) {
      assert Bit(x, t + 1) == Bit(y, t + 1);
    }
    if s == 0 {
      SameBits(x / 2, y / 2, n - 1);
    } else {
      HighestBitDecides(x / 2, y / 2, s - 1, n - 1);
    }
  }

  // Bit k of the data, most significant first; past the end reads as zero.
  predicate StreamBit(data: seq<Byte>, k: nat) {
    k / 8 < |data| && Bit(data[k / 8], 7 - k % 8)
  }

  lemma StreamBitAt(data: seq<Byte>, i: nat, s: nat)
    requires i < |data| && s < 8
    ensures StreamBit(data, 8 * i + (7 - s)) == Bit(data[i], s)
  {
    var k := 8 * i + (7 - s);
    assert k / 8 == i && k % 8 == 7 - s;
  }

  lemma SameStream(a: seq<Byte>, b: seq<Byte>)
    requires |a| == |b| && forall k :: 0 <= k < 8 * |a| ==> StreamBit(a, k) == StreamBit(b, k)
    ensures a == b
  {
    forall i | 0 <= i < |a| ensures a[i] == b[i] {
      forall s | 0 <= s < 8 ensures Bit(a[i], s) == Bit(b[i], s) {
        StreamBitAt(a, i, s);
        StreamBitAt(b, i, s);
      }
      PowersOfTwo();
      SameBits(a[i], b[i], 8);
    }
  }

  // ---------- Reading and writing groups of bits ----------

  // Shifting n bits in from the right, first bit first.
  function ShiftedIn(data: seq<Byte>, pos: nat, n: nat): nat {
    if n == 0 then 0 else 2 * ShiftedIn(data, pos, n - 1) + One(StreamBit(data, pos + n - 1))
  }

  method ReadBits(data: seq<Byte>, pos: nat, n: nat) returns (v: nat)
    ensures v == ShiftedIn(data, pos, n)
  {
    v := 0;
    var b := 0;
    while b < n
      invariant 0 <= b <= n
      invariant v == ShiftedIn(data, pos, b)
    {
      var bit := pos + b;
      var bitVal := 0;
      if bit / 8 < |data| {
        var shift := 7 - bit % 8;
        bitVal := One(Bit(data[bit / 8], shift));
      }
      v := 2 * v + bitVal;
      b := b + 1;
    }
  }

  lemma {:induction false} ShiftedInFits(data: seq<Byte>, pos: nat, n: nat)
    ensures ShiftedIn(data, pos, n) < Pow2(n)
  {
    if n > 0 {
      ShiftedInFits(data, pos, n - 1);
    }
  }

  lemma {:induction false} ShiftedInBit(data: seq<Byte>, pos: nat, n: nat, j: nat)
    requires j < n
    ensures Bit(ShiftedIn(data, pos, n), n - 1 - j) == StreamBit(data, pos + j)
  {
    var v := ShiftedIn(data, pos, n - 1);
    assert ShiftedIn(data, pos, n) / 2 == v;
    if j < n - 1 {
      ShiftedInBit(data, pos, n - 1, j);
    }
  }

  // The i-th group of five bits.
  function Group(data: seq<Byte>, i: nat): (v: nat)
    ensures v < 32
  {
    ShiftedInFits(data, 5 * i, 5);
    PowersOfTwo();
    ShiftedIn(data, 5 * i, 5)
  }

  // Writing ORs in the set bits of a five-bit value at pos..pos+5, and drops what falls past
  // the end.
  method WriteBits(data: array<Byte>, pos: nat, value: nat)
    modifies data
    ensures forall k :: 0 <= k < 8 * data.Length ==>
      StreamBit(data[..], k) == (old(StreamBit(data[..], k)) || (pos <= k < pos + 5 && Bit(value, pos + 4 - k)))
  {
    var b := 0;
    while b < 5
      invariant 0 <= b <= 5
      invariant forall k :: 0 <= k < 8 * data.Length ==>
        StreamBit(data[..], k) == (old(StreamBit(data[..], k))
          || (pos + 5 - b <= k < pos + 5 && Bit(value, pos + 4 - k)))
    {
      var bit := pos + (4 - b);
      var byteIdx := bit / 8;
      if byteIdx < data.Length && Bit(value, b) {
        ghost var before := data[..];
        var shift := 7 - bit % 8;
        PowersOfTwo();
        WithBitFits(data[byteIdx], shift, 8);
        data[byteIdx] := WithBit(data[byteIdx], shift);
        forall k | 0 <= k < 8 * data.Length ensures StreamBit(data[..], k) == (StreamBit(before, k) || k == bit) {
          if k / 8 == byteIdx {
            WithBitSets(before[byteIdx], shift, 7 - k % 8);
          }
        }
      }
      b := b + 1;
    }
  }

  // ---------- Symbols ----------

  function Letter(i: nat): char
    requires i < 26
  {
    ('A' as int + i) as char
  }

  // Crockford's alphabet: the digits, then the letters without I, L, O and U.
  function Symbol(i: nat): char
    requires i < 32
  {
    if i < 10 then ('0' as int + i) as char
    else if i < 18 then Letter(i - 10)
    else if i < 20 then Letter(i - 9)
    else if i < 22 then Letter(i - 8)
    else if i < 27 then Letter(i - 7)
    else Letter(i - 6)
  }

  lemma SymbolsSpellTheAlphabet()
    ensures seq(32, i requires 0 <= i < 32 => Symbol(i)) == "0123456789ABCDEFGHJKMNPQRSTVWXYZ"
  {
  }

  lemma SymbolOrder(i: nat, j: nat)
    requires i < 32 && j < 32
    ensures Symbol(i) < Symbol(j) <==> i < j
  {
  }

  predicate IsSymbol(c: char) {
    exists i :: 0 <= i < 32 && Symbol(i) == c
  }

  // The number a symbol stands for.
  ghost function ValueOf(c: char): (v: nat)
    requires IsSymbol(c)
    ensures v < 32 && Symbol(v) == c
  {
    var i :| 0 <= i < 32 && Symbol(i) == c;
    i
  }

  lemma ValueOfSymbol(v: nat)
    requires v < 32
    ensures IsSymbol(Symbol(v)) && ValueOf(Symbol(v)) == v
  {
    SymbolOrder(v, ValueOf(Symbol(v)));
    SymbolOrder(ValueOf(Symbol(v)), v);
  }

  method ReverseAlphabet() returns (rev: map<char, nat>)
    ensures forall c :: c in rev <==> IsSymbol(c)
    ensures forall c :: c in rev && IsSymbol(c) ==> rev[c] == ValueOf(c)
  {
    rev := map[];
    var i := 0;
    while i < 32
      invariant 0 <= i <= 32
      invariant forall j :: 0 <= j < i ==> Symbol(j) in rev
      invariant forall c :: c in rev ==> IsSymbol(c) && rev[c] == ValueOf(c)
    {
      ValueOfSymbol(i);
      rev := rev[Symbol(i) := i];
      i := i + 1;
    }
  }

  // ---------- Encoding and decoding ----------

  // Character i carries bits 5i..5i+5 of the data.
  predicate Encodes(data: seq<Byte>, s: string) {
    |s| == (8 * |data| + 4) / 5 && forall i :: 0 <= i < |s| ==> s[i] == Symbol(Group(data, i))
  }

  method EncodeCrockford(data: seq<Byte>) returns (s: string)
    ensures Encodes(data, s)
  {
    var numChars := (8 * |data| + 4) / 5;
    s := "";
    var i := 0;
    while i < numChars
      invariant 0 <= i <= numChars && |s| == i
      invariant forall k :: 0 <= k < i ==> s[k] == Symbol(Group(data, k))
    {
      var v := ReadBits(data, 5 * i, 5);
      assert v == Group(data, i);
      s := s + [Symbol(v)];
      i := i + 1;
    }
  }

  predicate ValidText(s: string) {
    forall i :: 0 <= i < |s| ==> IsSymbol(s[i])
  }

  // Bit k of the text, five bits a character.
  ghost predicate TextBit(s: string, k: nat)
    requires ValidText(s)
  {
    k / 5 < |s| && Bit(ValueOf(s[k / 5]), 4 - k % 5)
  }

  // The decoded bytes hold the first 128 bits of the text.
  ghost predicate Decodes(s: string, out: seq<Byte>) {
    ValidText(s) && |out| == 16 && forall k :: 0 <= k < 128 ==> StreamBit(out, k) == TextBit(s, k)
  }

  lemma TextBitStep(s: string, i: nat, k: nat)
    requires i < |s| && ValidText(s[..i]) && IsSymbol(s[i])
    ensures ValidText(s[..i + 1])
    ensures TextBit(s[..i + 1], k) ==
      (TextBit(s[..i], k) || (i * 5 <= k < i * 5 + 5 && Bit(ValueOf(s[i]), i * 5 + 4 - k)))
  {
    var longer := s[..i + 1];
    assert longer == s[..i] + [s[i]];
    if k / 5 < i {
      assert longer[k / 5] == s[..i][k / 5];
    } else if k / 5 == i {
      assert k % 5 == k - i * 5;
    }
  }

  method DecodeCrockford(s: string) returns (r: Result<seq<Byte>, nat>)
    ensures r.Ok? <==> ValidText(s)
    ensures r.Ok? ==> Decodes(s, r.value)
    ensures r.Err? ==> r.error < |s| && !IsSymbol(s[r.error]) && ValidText(s[..r.error])
  {
    var rev := ReverseAlphabet();
    var out := new Byte[16](_ => 0);
    forall k | 0 <= k < 128 ensures !StreamBit(out[..], k) { ZeroHasNoBits(7 - k % 8); }
    var i := 0;
    while i < |s|
      invariant 0 <= i <= |s|
      invariant ValidText(s[..i])
      invariant forall k :: 0 <= k < 128 ==> StreamBit(out[..], k) == TextBit(s[..i], k)
    {
      if s[i] !in rev {
        return Err(i);
      }
      WriteBits(out, i * 5, rev[s[i]]);
      forall k | 0 <= k < 128 ensures ValidText(s[..i + 1]) && StreamBit(out[..], k) == TextBit(s[..i + 1], k) {
        TextBitStep(s, i, k);
      }
      TextBitStep(s, i, 0);
      i := i + 1;
    }
    assert s[..|s|] == s;
    return Ok(out[..]);
  }

  lemma EncodedIsValid(data: seq<Byte>, s: string)
    requires Encodes(data, s)
    ensures ValidText(s)
    ensures forall i :: 0 <= i < |s| ==> ValueOf(s[i]) == Group(data, i)
  {
    forall i | 0 <= i < |s| ensures IsSymbol(s[i]) && ValueOf(s[i]) == Group(data, i) {
      ValueOfSymbol(Group(data, i));
    }
  }

  lemma EncodedTextBit(data: seq<Byte>, s: string, k: nat)
    requires Encodes(data, s) && ValidText(s) && k < 8 * |data|
    ensures TextBit(s, k) == StreamBit(data, k)
  {
    EncodedIsValid(data, s);
    var i, j := k / 5, k % 5;
    assert i < |s| && 5 * i + j == k;
    ShiftedInBit(data, 5 * i, 5, j);
  }

  // Packing loses nothing: what a 16-byte id encodes to decodes to that id and nothing else.
  lemma DecodeUndoesEncode(data: seq<Byte>, s: string)
    requires |data| == 16 && Encodes(data, s)
    ensures |s| == 26 && ValidText(s)
    ensures forall out :: Decodes(s, out) <==> out == data
  {
    EncodedIsValid(data, s);
    forall k | 0 <= k < 128 ensures StreamBit(data, k) == TextBit(s, k) {
      EncodedTextBit(data, s, k);
    }
    forall out | Decodes(s, out) ensures out == data {
      SameStream(out, data);
    }
  }

  lemma DecodedBit(s: string, data: seq<Byte>, i: nat, j: nat)
    requires Decodes(s, data) && i < 26 <= |s| && j < 5
    ensures StreamBit(data, 5 * i + j) <==> 5 * i + j < 128 && Bit(ValueOf(s[i]), 4 - j)
  {
    var k := 5 * i + j;
    assert k / 5 == i && k % 5 == j;
    assert k < 128 ==> StreamBit(data, k) == TextBit(s, k);
  }

  lemma {:induction false} LowBits(v: nat)
    ensures v % 4 == 0 <==> !Bit(v, 0) && !Bit(v, 1)
  {
    var q, r := v / 4, v % 4;
    assert v % 2 == r % 2;
    assert v / 2 == 2 * q + r / 2;
    assert Bit(v, 0) == Odd(v) && Bit(v, 1) == Odd(v / 2);
  }

  lemma GroupOfDecoded(s: string, data: seq<Byte>, i: nat)
    requires Decodes(s, data) && i < 26 <= |s|
    ensures Group(data, i) == ValueOf(s[i]) <==> i < 25 || ValueOf(s[25]) % 4 == 0
  {
    var v, g := ValueOf(s[i]), Group(data, i);
    forall m | 0 <= m < 5 ensures Bit(g, m) <==> 5 * i + (4 - m) < 128 && Bit(v, m) {
      ShiftedInBit(data, 5 * i, 5, 4 - m);
      DecodedBit(s, data, i, 4 - m);
    }
    LowBits(v);
    PowersOfTwo();
    if i < 25 || v % 4 == 0 {
      SameBits(g, v, 5);
    }
  }

  // Decoding takes any length, and 26 characters carry 130 bits where the bytes carry 128. A text is
  // the encoding of what it decodes to exactly when it has 26 characters and its last one leaves the
  // two bits zero.
  lemma EncodeUndoesDecode(s: string, data: seq<Byte>)
    requires Decodes(s, data)
    ensures Encodes(data, s) <==> |s| == 26 && ValueOf(s[25]) % 4 == 0
  {
    if |s| == 26 {
      PaddingDecides(s, data);
    }
  }

  lemma PaddingDecides(s: string, data: seq<Byte>)
    requires |s| == 26 && Decodes(s, data)
    ensures Encodes(data, s) <==> ValueOf(s[25]) % 4 == 0
  {
    forall i | 0 <= i < 26 ensures s[i] == Symbol(Group(data, i)) <==> i < 25 || ValueOf(s[25]) % 4 == 0 {
      GroupOfDecoded(s, data, i);
      ValueOfSymbol(Group(data, i));
    }
  }

  // ---------- Order ----------

  predicate BytesLess(a: seq<Byte>, b: seq<Byte>) {
    b != [] && (a == [] || a[0] < b[0] || (a[0] == b[0] && BytesLess(a[1..], b[1..])))
  }

  lemma {:induction false} BytesLessAt(a: seq<Byte>, b: seq<Byte>, p: nat)
    requires p < |a| && p < |b| && a[..p] == b[..p] && a[p] < b[p]
    ensures BytesLess(a, b) && !BytesLess(b, a)
  {
    if p > 0 {
      assert a[0] == a[..p][0] == b[0];
      assert a[1..][..p - 1] == a[..p][1..] && b[1..][..p - 1] == b[..p][1..];
      BytesLessAt(a[1..], b[1..], p - 1);
    }
  }

  lemma {:induction false} StringLessAt(a: string, b: string, p: nat)
    requires p < |a| && p < |b| && a[..p] == b[..p] && a[p] < b[p]
    ensures StringLess(a, b) && !StringLess(b, a)
  {
    if p > 0 {
      assert a[0] == a[..p][0] == b[0];
      assert a[1..][..p - 1] == a[..p][1..] && b[1..][..p - 1] == b[..p][1..];
      StringLessAt(a[1..], b[1..], p - 1);
    }
  }

  // a is below b from bit p on, and like it before.
  predicate BelowAt(a: seq<Byte>, b: seq<Byte>, p: nat) {
    !StreamBit(a, p) && StreamBit(b, p) && forall k :: 0 <= k < p ==> StreamBit(a, k) == StreamBit(b, k)
  }

  lemma FirstDifference(a: seq<Byte>, b: seq<Byte>) returns (p: nat)
    requires |a| == |b| && a != b
    ensures p < 8 * |a| && (BelowAt(a, b, p) || BelowAt(b, a, p))
  {
    if forall k :: 0 <= k < 8 * |a| ==> StreamBit(a, k) == StreamBit(b, k) {
      SameStream(a, b);
    }
    p := 0;
    while StreamBit(a, p) == StreamBit(b, p)
      invariant p < 8 * |a|
      invariant forall k :: 0 <= k < p ==> StreamBit(a, k) == StreamBit(b, k)
      decreases 8 * |a| - p
    {
      p := p + 1;
    }
  }

  lemma BelowOrdersBytes(a: seq<Byte>, b: seq<Byte>, p: nat)
    requires |a| == |b| && p < 8 * |a| && BelowAt(a, b, p)
    ensures BytesLess(a, b) && !BytesLess(b, a)
  {
    var i := p / 8;
    PowersOfTwo();
    forall j | 0 <= j < i ensures a[j] == b[j] {
      forall s | 0 <= s < 8 ensures Bit(a[j], s) == Bit(b[j], s) {
        StreamBitAt(a, j, s);
        StreamBitAt(b, j, s);
      }
      SameBits(a[j], b[j], 8);
    }
    forall t | 7 - p % 8 < t < 8 ensures Bit(a[i], t) == Bit(b[i], t) {
      StreamBitAt(a, i, t);
      StreamBitAt(b, i, t);
    }
    HighestBitDecides(a[i], b[i], 7 - p % 8, 8);
    assert a[..i] == b[..i];
    BytesLessAt(a, b, i);
  }

  lemma BelowOrdersGroups(a: seq<Byte>, b: seq<Byte>, p: nat)
    requires BelowAt(a, b, p)
    ensures Group(a, p / 5) < Group(b, p / 5)
  {
    var i, m := p / 5, 4 - p % 5;
    ShiftedInBit(a, 5 * i, 5, 4 - m);
    ShiftedInBit(b, 5 * i, 5, 4 - m);
    forall t | m < t < 5 ensures Bit(Group(a, i), t) == Bit(Group(b, i), t) {
      ShiftedInBit(a, 5 * i, 5, 4 - t);
      ShiftedInBit(b, 5 * i, 5, 4 - t);
    }
    PowersOfTwo();
    HighestBitDecides(Group(a, i), Group(b, i), m, 5);
  }

  lemma {:induction false} SameGroup(a: seq<Byte>, b: seq<Byte>, pos: nat, n: nat)
    requires forall k :: pos <= k < pos + n ==> StreamBit(a, k) == StreamBit(b, k)
    ensures ShiftedIn(a, pos, n) == ShiftedIn(b, pos, n)
  {
    if n > 0 {
      SameGroup(a, b, pos, n - 1);
    }
  }

  lemma BelowOrdersText(a: seq<Byte>, b: seq<Byte>, s: string, t: string, p: nat)
    requires |a| == |b| && p < 8 * |a| && BelowAt(a, b, p)
    requires Encodes(a, s) && Encodes(b, t)
    ensures StringLess(s, t) && !StringLess(t, s)
  {
    var i := p / 5;
    BelowOrdersGroups(a, b, p);
    SymbolOrder(Group(a, i), Group(b, i));
    forall j | 0 <= j < i ensures s[j] == t[j] {
      SameGroup(a, b, 5 * j, 5);
    }
    assert s[..i] == t[..i];
    StringLessAt(s, t, i);
  }

  lemma {:induction false} NotLessItself(a: seq<Byte>)
    ensures !BytesLess(a, a)
  {
    if a != [] {
      NotLessItself(a[1..]);
    }
  }

  // Sorting ids as strings sorts them as bytes.
  lemma TextOrderIsByteOrder(a: seq<Byte>, b: seq<Byte>, s: string, t: string)
    requires |a| == |b| && Encodes(a, s) && Encodes(b, t)
    ensures StringLess(s, t) <==> BytesLess(a, b)
  {
    if a == b {
      assert s == t;
      StringLessTotal(s, t);
      NotLessItself(a);
    } else {
      var p := FirstDifference(a, b);
      if BelowAt(a, b, p) {
        BelowOrdersBytes(a, b, p);
        BelowOrdersText(a, b, s, t, p);
      } else {
        BelowOrdersBytes(b, a, p);
        BelowOrdersText(b, a, t, s, p);
      }
    }
  }

  // ---------- The timestamp ----------

  const MS_LIMIT := 281474976710656 // 2^48

  function Low8(n: nat): Byte {
    n % 256
  }

  // Bytes 0 to 5 hold the low 48 bits of the milliseconds, most significant first.
  function TimeBytes(ms: nat): seq<Byte> {
    [Low8(ms / 1099511627776), Low8(ms / 4294967296), Low8(ms / 16777216), Low8(ms / 65536), Low8(ms / 256), Low8(ms)]
  }

  function TimeOf(data: seq<Byte>): nat
    requires |data| >= 6
  {
    1099511627776 * (data[0] as nat) + 4294967296 * (data[1] as nat) + 16777216 * (data[2] as nat)
    + 65536 * (data[3] as nat) + 256 * (data[4] as nat) + data[5] as nat
  }

  lemma {:induction false} ShiftByBytes(n: nat)
    ensures n / 256 / 256 == n / 65536
    ensures n / 65536 / 256 == n / 16777216
    ensures n / 16777216 / 256 == n / 4294967296
    ensures n / 4294967296 / 256 == n / 1099511627776
    ensures n / 1099511627776 / 256 == n / MS_LIMIT
  {
  }

  lemma {:induction false} TimeOfTimeBytes(ms: nat)
    ensures TimeOf(TimeBytes(ms)) == ms % MS_LIMIT
  {
    ShiftByBytes(ms);
    assert TimeOf(TimeBytes(ms)) == ms - MS_LIMIT * (ms / MS_LIMIT);
  }

  lemma {:induction false} LowMilliseconds(ms: nat)
    ensures ms % MS_LIMIT == ms <==> ms < MS_LIMIT
  {
  }

  // The random source yields `rnd` and then fails.
  method NewULID(ms: int, rnd: seq<Byte>) returns (r: Result<string, string>)
    ensures r.Ok? <==> ms >= 0 && |rnd| >= 10
    ensures r.Ok? ==> Encodes(TimeBytes(ms) + rnd[..10], r.value)
  {
    if ms < 0 {
      return Err("negative timestamp");
    }
    if |rnd| < 10 {
      return Err("entropy");
    }
    var data := [Low8(ms / 1099511627776), Low8(ms / 4294967296), Low8(ms / 16777216),
                 Low8(ms / 65536), Low8(ms / 256), Low8(ms)] + rnd[..10];
    var s := EncodeCrockford(data);
    return Ok(s);
  }

  method DecodeTime(id: string) returns (r: Result<nat, string>)
    ensures r.Ok? <==> |id| == 26 && ValidText(id)
    ensures r.Ok? ==> exists data :: Decodes(id, data) && r.value == TimeOf(data)
  {
    if |id| != 26 {
      return Err("length");
    }
    var data := DecodeCrockford(id);
    if data.Err? {
      return Err("character");
    }
    return Ok(TimeOf(data.value));
  }

  // DecodeTime gives back the milliseconds NewULID was given, modulo 2^48: exactly the time
  // itself when that is below 2^48, and silently something else when it is not.
  lemma {:induction false} DecodeTimeOfNewULID(ms: nat, rnd: seq<Byte>, id: string, data: seq<Byte>)
    requires |rnd| >= 10 && Encodes(TimeBytes(ms) + rnd[..10], id) && Decodes(id, data)
    ensures TimeOf(data) == ms % MS_LIMIT
    ensures TimeOf(data) == ms <==> ms < MS_LIMIT
  {
    var time := TimeBytes(ms);
    DecodeUndoesEncode(time + rnd[..10], id);
    TimeIsInTheHead(time, rnd[..10]);
    TimeOfTimeBytes(ms);
    LowMilliseconds(ms);
  }

  lemma TimeIsInTheHead(time: seq<Byte>, rest: seq<Byte>)
    requires |time| == 6
    ensures TimeOf(time + rest) == TimeOf(time)
  {
  }

  // The first byte that differs orders the times.
  lemma EarlierTimeBelow(a: seq<Byte>, b: seq<Byte>) returns (p: nat)
    requires |a| == 6 && |b| == 6 && TimeOf(a) < TimeOf(b)
    ensures p < 6 && a[..p] == b[..p] && a[p] < b[p]
  {
    if a[0] != b[0] { p := 0; }
    else if a[1] != b[1] { p := 1; }
    else if a[2] != b[2] { p := 2; }
    else if a[3] != b[3] { p := 3; }
    else if a[4] != b[4] { p := 4; }
    else { p := 5; }
  }

  lemma HeadsOrderText(h1: seq<Byte>, h2: seq<Byte>, r1: seq<Byte>, r2: seq<Byte>, p: nat, id1: string, id2: string)
    requires |h1| == |h2| && |r1| == |r2| && p < |h1| && h1[..p] == h2[..p] && h1[p] < h2[p]
    requires Encodes(h1 + r1, id1) && Encodes(h2 + r2, id2)
    ensures StringLess(id1, id2) && !StringLess(id2, id1)
  {
    var a, b := h1 + r1, h2 + r2;
    assert a[..p] == h1[..p] && b[..p] == h2[..p];
    BytesLessAt(a, b, p);
    TextOrderIsByteOrder(a, b, id1, id2);
    TextOrderIsByteOrder(b, a, id2, id1);
  }

  lemma EarlierHeads(h1: seq<Byte>, h2: seq<Byte>, r1: seq<Byte>, r2: seq<Byte>, id1: string, id2: string)
    requires |h1| == 6 && |h2| == 6 && |r1| == |r2| && TimeOf(h1) < TimeOf(h2)
    requires Encodes(h1 + r1, id1) && Encodes(h2 + r2, id2)
    ensures StringLess(id1, id2) && !StringLess(id2, id1)
  {
    var p := EarlierTimeBelow(h1, h2);
    HeadsOrderText(h1, h2, r1, r2, p, id1, id2);
  }

  lemma {:induction false} TimeBelowLimit(ms: nat)
    requires ms < MS_LIMIT
    ensures TimeOf(TimeBytes(ms)) == ms
  {
    TimeOfTimeBytes(ms);
    LowMilliseconds(ms);
  }

  // Ids sort by their time, whatever their random bytes.
  lemma IdsSortByTime(ms1: nat, ms2: nat, rnd1: seq<Byte>, rnd2: seq<Byte>, id1: string, id2: string)
    requires ms1 < ms2 < MS_LIMIT && |rnd1| >= 10 && |rnd2| >= 10
    requires Encodes(TimeBytes(ms1) + rnd1[..10], id1) && Encodes(TimeBytes(ms2) + rnd2[..10], id2)
    ensures StringLess(id1, id2) && !StringLess(id2, id1)
  {
    TimeBelowLimit(ms1);
    TimeBelowLimit(ms2);
    EarlierHeads(TimeBytes(ms1), TimeBytes(ms2), rnd1[..10], rnd2[..10], id1, id2);
  }
}
