/**
 * The codec's transform as functions on sequences: how one group of up to
 * four bytes becomes up to five symbols and back, and how a whole buffer is
 * cut into groups. The class in module Codec runs these as loops over
 * buffers and is proved to compute exactly these functions.
 */
module Base85 {
  import opened Digits

  type byte = x: int | 0 <= x < 0x100

  /** The weights 85^0 .. 85^4 the source keeps in a five-entry table. */
  const POW85: seq<nat> := [0x1, 0x55, 0x1C39, 0x95EED, 0x31C84B1]

  lemma Pow85Table()
    ensures |POW85| == 5
    ensures forall k :: 0 <= k < 5 ==> POW85[k] == Pow(85, k)
  {
    assert Pow(85, 1) == 0x55;
    assert Pow(85, 2) == 0x1C39;
    assert Pow(85, 3) == 0x95EED;
    assert Pow(85, 4) == 0x31C84B1;
  }

  /**
   * alpha and rev are inverse on the 85 symbol slots: alphabet entry i is
   * looked up back to i.
   */
  predicate Inverts(alpha: seq<byte>, rev: map<byte, nat>)
  {
    |alpha| >= 85 && forall i :: 0 <= i < 85 ==> alpha[i] in rev && rev[alpha[i]] == i
  }

  /** Every symbol of s has a reverse-lookup entry. */
  predicate AllIn(s: seq<byte>, rev: map<byte, nat>)
  {
    forall i :: 0 <= i < |s| ==> s[i] in rev
  }

  /** Length of the encoding of n bytes: 5 per full group, r+1 for a tail of r. */
  function EncodedLength(n: nat): (r: nat)
  {
    5 * (n / 4) + (if n % 4 == 0 then 0 else n % 4 + 1)
  }

  /** Length of the decoding of n symbols: 4 per full group, r-1 for a tail of r. */
  function DecodedLength(n: nat): (r: nat)
  {
    4 * (n / 5) + (if n % 5 == 0 then 0 else n % 5 - 1)
  }

  /** The alphabet entries at the first n base-85 digits of v. */
  function Symbols(alpha: seq<byte>, v: nat, n: nat): (r: seq<byte>)
    requires |alpha| >= 85
  {
    seq(n, k requires 0 <= k < n => alpha[v / Pow(85, k) % 85])
  }

  /** The first n little-endian bytes of v. */
  function Bytes(v: nat, n: nat): (r: seq<byte>)
  {
    seq(n, k requires 0 <= k < n => v / Pow(256, k) % 256)
  }

  /**
   * A JavaScript number as decode's accumulator holds it: an exact
   * non-negative integer, or NaN once a symbol without a reverse-lookup
   * entry (undefined) has been multiplied in.
   */
  datatype Num = Finite(n: nat) | NaN

  /** Addition of accumulator values: NaN absorbs everything. */
  function Add(a: Num, b: Num): (r: Num)
    ensures r.NaN? <==> a.NaN? || b.NaN?
    ensures r.Finite? ==> r.n == a.n + b.n
  {
    if a.Finite? && b.Finite? then Finite(a.n + b.n) else NaN
  }

  /** ECMAScript ToUint32: NaN becomes 0, a finite value is taken modulo 2^32. */
  function ToUint32(v: Num): (r: nat)
    ensures r < 0x1_0000_0000
  {
    match v
    case NaN => 0
    case Finite(x) => x % 0x1_0000_0000
  }

  /**
   * v >> (k << 3) & 0xFF for k <= 3: the shift acts on the 32 bits of
   * ToInt32(v), and the mask keeps their byte k.
   */
  function ShiftByte(v: Num, k: nat): (r: byte)
    ensures v.NaN? ==> r == 0
    ensures v.Finite? && k < 4 ==> r == v.n / Pow(256, k) % 256
  {
    LowBytesKept(v, k);
    ToUint32(v) / Pow(256, k) % 256
  }

  /** NaN shifts to 0, and reducing modulo 2^32 keeps the four low bytes of a finite value. */
  lemma LowBytesKept(v: Num, k: nat)
    ensures v.NaN? ==> ToUint32(v) / Pow(256, k) % 256 == 0
    ensures v.Finite? && k < 4 ==> ToUint32(v) / Pow(256, k) % 256 == v.n / Pow(256, k) % 256
  {
    if v.NaN? {
      assert ToUint32(v) == 0;
    } else if k < 4 {
      assert Pow(256, 4) == 0x1_0000_0000;
      ModKeepsDigit(v.n, 256, k, 4);
    }
  }

  /** The bytes decode emits for an accumulator value: ShiftByte(v, k) for k < n. */
  function NumBytes(v: Num, n: nat): (r: seq<byte>)
    ensures |r| == n
  {
    seq(n, k requires 0 <= k < n => ShiftByte(v, k))
  }

  /**
   * One group of L bytes (1 <= L <= 4), packed little-endian into v, becomes
   * L+1 symbols: symbol k is the alphabet entry at base-85 digit k of v.
   */
  function EncodeGroup(alpha: seq<byte>, g: seq<byte>): (r: seq<byte>)
    requires 1 <= |g| <= 4 && |alpha| >= 85
  {
    Symbols(alpha, Value(g, 256), |g| + 1)
  }

  /** The digit each symbol of s stands for. */
  function Lookup(rev: map<byte, nat>, s: seq<byte>): (ds: seq<nat>)
    requires AllIn(s, rev)
    ensures |ds| == |s|
  {
    seq(|s|, k requires 0 <= k < |s| => rev[s[k]])
  }

  /**
   * The sum decode accumulates for the symbols s: their digits as a
   * little-endian base-85 number, or NaN when a symbol has no entry.
   */
  function GroupNum(rev: map<byte, nat>, s: seq<byte>): (v: Num)
    ensures v.NaN? <==> exists k :: 0 <= k < |s| && s[k] !in rev
    ensures |s| == 0 ==> v == Finite(0)
  {
    if AllIn(s, rev) then Finite(Value(Lookup(rev, s), 85)) else NaN
  }

  /**
   * One group of L symbols (1 <= L <= 5) is read as a little-endian base-85
   * number v, whose low L-1 bytes are emitted. A lone symbol yields no byte.
   */
  function DecodeGroup(rev: map<byte, nat>, s: seq<byte>): (r: seq<byte>)
    requires 1 <= |s| <= 5
  {
    NumBytes(GroupNum(rev, s), |s| - 1)
  }

  /** Encoding of a whole buffer, four bytes at a time; the last group may be short. */
  function Encode(alpha: seq<byte>, x: seq<byte>): (r: seq<byte>)
    requires |alpha| >= 85
    decreases |x|
  {
    if |x| == 0 then []
    else
      var n := if |x| < 4 then |x| else 4;
      EncodeGroup(alpha, x[..n]) + Encode(alpha, x[n..])
  }

  /** Decoding of a whole buffer, five symbols at a time; the last group may be short. */
  function Decode(rev: map<byte, nat>, s: seq<byte>): (r: seq<byte>)
    decreases |s|
  {
    if |s| == 0 then []
    else
      var n := if |s| < 5 then |s| else 5;
      DecodeGroup(rev, s[..n]) + Decode(rev, s[n..])
  }

  lemma {:induction false} EncodeLength(alpha: seq<byte>, x: seq<byte>)
    requires |alpha| >= 85
    ensures |Encode(alpha, x)| == EncodedLength(|x|)
    decreases |x|
  {
    if |x| > 4 {
      EncodeLength(alpha, x[4..]);
    }
  }

  lemma {:induction false} DecodeLength(rev: map<byte, nat>, s: seq<byte>)
    ensures |Decode(rev, s)| == DecodedLength(|s|)
    decreases |s|
  {
    if |s| > 5 {
      DecodeLength(rev, s[5..]);
    }
  }

  /** Every emitted symbol is one of the first 85 alphabet entries. */
  lemma {:induction false} EncodeUsesAlphabet(alpha: seq<byte>, x: seq<byte>)
    requires |alpha| >= 85
    ensures forall j :: 0 <= j < |Encode(alpha, x)| ==> Encode(alpha, x)[j] in alpha[..85]
    decreases |x|
  {
    if |x| > 0 {
      var n := if |x| < 4 then |x| else 4;
      var g := EncodeGroup(alpha, x[..n]);
      assert forall j :: 0 <= j < |g| ==> g[j] in alpha[..85] by {
        forall j | 0 <= j < |g| ensures g[j] in alpha[..85] {
          var d := Value(x[..n], 256) / Pow(85, j) % 85;
          assert g[j] == alpha[..85][d];
        }
      }
      EncodeUsesAlphabet(alpha, x[n..]);
    }
  }

  /** Groups of four bytes are encoded independently of what follows them. */
  lemma {:induction false} EncodeAppend(alpha: seq<byte>, x: seq<byte>, y: seq<byte>)
    requires |alpha| >= 85 && |x| % 4 == 0
    ensures Encode(alpha, x + y) == Encode(alpha, x) + Encode(alpha, y)
    decreases |x|
  {
    if |x| == 0 {
      assert x + y == y;
    } else {
      assert (x + y)[..4] == x[..4];
      assert (x + y)[4..] == x[4..] + y;
      EncodeAppend(alpha, x[4..], y);
    }
  }

  /** Groups of five symbols are decoded independently of what follows them. */
  lemma {:induction false} DecodeAppend(rev: map<byte, nat>, s: seq<byte>, t: seq<byte>)
    requires |s| % 5 == 0
    ensures Decode(rev, s + t) == Decode(rev, s) + Decode(rev, t)
    decreases |s|
  {
    if |s| == 0 {
      assert s + t == t;
    } else {
      assert (s + t)[..5] == s[..5];
      assert (s + t)[5..] == s[5..] + t;
      DecodeAppend(rev, s[5..], t);
    }
  }

  /** A buffer of at most one group is encoded as that group. */
  lemma EncodeSingle(alpha: seq<byte>, g: seq<byte>)
    requires |alpha| >= 85 && 1 <= |g| <= 4
    ensures Encode(alpha, g) == EncodeGroup(alpha, g)
  {
    assert g[..|g|] == g;
  }

  /** A buffer of at most one group is decoded as that group. */
  lemma DecodeSingle(rev: map<byte, nat>, s: seq<byte>)
    requires 1 <= |s| <= 5
    ensures Decode(rev, s) == DecodeGroup(rev, s)
  {
    assert s[..|s|] == s;
  }

  /** A prefix is a shorter prefix followed by the slice between them. */
  lemma PrefixJoin(x: seq<byte>, a: nat, b: nat)
    requires a <= b <= |x|
    ensures x[..b] == x[..a] + x[a..b]
  {
  }

  /** Encoding the first k whole groups, then one more group. */
  lemma EncodeExtend(alpha: seq<byte>, x: seq<byte>, k: nat, len: nat)
    requires |alpha| >= 85 && 1 <= len <= 4 && 4 * k + len <= |x|
    ensures var i := 4 * k;
      Encode(alpha, x[..i + len]) == Encode(alpha, x[..i]) + EncodeGroup(alpha, x[i..i + len])
  {
    var i := 4 * k;
    DivModUnique(i, 4, k, 0);
    var g := x[i..i + len];
    PrefixJoin(x, i, i + len);
    EncodeAppend(alpha, x[..i], g);
    EncodeSingle(alpha, g);
  }

  /** Decoding the first k whole groups, then one more group. */
  lemma DecodeExtend(rev: map<byte, nat>, s: seq<byte>, k: nat, len: nat)
    requires 1 <= len <= 5 && 5 * k + len <= |s|
    ensures var i := 5 * k;
      Decode(rev, s[..i + len]) == Decode(rev, s[..i]) + DecodeGroup(rev, s[i..i + len])
  {
    var i := 5 * k;
    DivModUnique(i, 5, k, 0);
    var g := s[i..i + len];
    PrefixJoin(s, i, i + len);
    DecodeAppend(rev, s[..i], g);
    DecodeSingle(rev, g);
  }

  /**
   * A trailing group of exactly one byte is consumed without output and
   * without error, whatever the byte is.
   */
  lemma DecodeDropsLoneSymbol(rev: map<byte, nat>, s: seq<byte>, c: byte)
    requires |s| % 5 == 0
    ensures Decode(rev, s + [c]) == Decode(rev, s)
  {
    DecodeAppend(rev, s, [c]);
    assert [c][..1] == [c];
  }

  /** The byte values 256^L fit below 85^(L+1) for every group length L. */
  lemma GroupFits(n: nat)
    requires 1 <= n <= 4
    ensures Pow(256, n) <= Pow(85, n + 1)
  {
    assert Pow(85, 2) == 7225;
    assert Pow(85, 3) == 614125;
    assert Pow(85, 4) == 52200625;
    assert Pow(85, 5) == 4437053125;
    assert Pow(256, 2) == 65536;
    assert Pow(256, 3) == 16777216;
    assert Pow(256, 4) == 4294967296;
  }

  /** Looking up the symbols of v gives back its base-85 digits. */
  lemma SymbolDigits(alpha: seq<byte>, rev: map<byte, nat>, v: nat, n: nat)
    requires Inverts(alpha, rev)
    ensures AllIn(Symbols(alpha, v, n), rev)
    ensures Lookup(rev, Symbols(alpha, v, n)) == DigitsOf(v, 85, n)
  {
    var s := Symbols(alpha, v, n);
    forall k | 0 <= k < n
      ensures s[k] in rev && rev[s[k]] == v / Pow(85, k) % 85
    {
      var d := v / Pow(85, k) % 85;
      assert s[k] == alpha[d];
    }
  }

  /** The packed value of a group survives its trip through base 85. */
  lemma GroupValue(g: seq<byte>)
    requires 1 <= |g| <= 4
    ensures Value(DigitsOf(Value(g, 256), 85, |g| + 1), 85) == Value(g, 256)
  {
    var v, p := Value(g, 256), Pow(85, |g| + 1);
    assert AllBelow(g, 256);
    ValueBound(g, 256);
    GroupFits(|g|);
    DivModUnique(v, p, 0, v);
    assert v % p == v;
    ValueOfDigits(v, 85, |g| + 1);
  }

  /** A group of at most four bytes packs into 32 bits. */
  lemma GroupBelow32(g: seq<byte>)
    requires |g| <= 4
    ensures Value(g, 256) < 0x1_0000_0000
  {
    assert AllBelow(g, 256);
    ValueBound(g, 256);
    PowAdd(256, |g|, 4 - |g|);
    assert Pow(256, 4) == 0x1_0000_0000;
  }

  /**
   * The 32-bit wrap of the shift does not lose anything: for a group of
   * known symbols the emitted bytes are the low bytes of the exact sum,
   * even when that sum is 2^32 or more.
   */
  lemma DecodeKnownGroup(rev: map<byte, nat>, s: seq<byte>)
    requires 1 <= |s| <= 5 && AllIn(s, rev)
    ensures DecodeGroup(rev, s) == Bytes(Value(Lookup(rev, s), 85), |s| - 1)
  {
    var x := Value(Lookup(rev, s), 85);
    assert Pow(256, 4) == 0x1_0000_0000;
    forall k | 0 <= k < |s| - 1
      ensures ShiftByte(Finite(x), k) == x / Pow(256, k) % 256
    {
      ModKeepsDigit(x, 256, k, 4);
    }
  }

  /**
   * A group holding a byte without a reverse-lookup entry makes the sum
   * NaN, and every byte emitted for it is 0: decode reports no error.
   */
  lemma DecodeUnknownGroup(rev: map<byte, nat>, s: seq<byte>)
    requires 1 <= |s| <= 5 && !AllIn(s, rev)
    ensures GroupNum(rev, s) == NaN
    ensures forall k :: 0 <= k < |s| - 1 ==> DecodeGroup(rev, s)[k] == 0
  {
  }

  /** Adding in symbol k: its weighted digit, or NaN when it has no entry. */
  lemma GroupNumNext(rev: map<byte, nat>, s: seq<byte>, k: nat)
    requires k < |s|
    ensures GroupNum(rev, s[..k + 1])
      == Add(GroupNum(rev, s[..k]), if s[k] in rev then Finite(rev[s[k]] * Pow(85, k)) else NaN)
  {
    var front, next := s[..k], s[..k + 1];
    assert next[..k] == front && next[k] == s[k];
    if AllIn(next, rev) {
      assert AllIn(front, rev);
      var ds := Lookup(rev, next);
      assert ds[..k] == Lookup(rev, front);
      ValueNext(ds, 85, k);
    } else if AllIn(front, rev) {
      assert s[k] !in rev;
    }
  }

  /** Decoding the symbols of one group gives back the group. */
  lemma GroupRoundTrip(alpha: seq<byte>, rev: map<byte, nat>, g: seq<byte>)
    requires Inverts(alpha, rev) && 1 <= |g| <= 4
    ensures AllIn(EncodeGroup(alpha, g), rev)
    ensures DecodeGroup(rev, EncodeGroup(alpha, g)) == g
  {
    var v, n := Value(g, 256), |g| + 1;
    var s := Symbols(alpha, v, n);
    SymbolDigits(alpha, rev, v, n);
    GroupValue(g);
    DecodeKnownGroup(rev, s);
    var r := DecodeGroup(rev, s);
    assert r == Bytes(v, |g|);
    forall k | 0 <= k < |g|
      ensures r[k] == g[k]
    {
      assert AllBelow(g, 256);
      ValueDigit(g, 256, k);
    }
  }

  /** Decoding an encoding gives back the input, for any alphabet and its inverse. */
  lemma {:induction false} RoundTrip(alpha: seq<byte>, rev: map<byte, nat>, x: seq<byte>)
    requires Inverts(alpha, rev)
    ensures AllIn(Encode(alpha, x), rev)
    ensures Decode(rev, Encode(alpha, x)) == x
    decreases |x|
  {
    if |x| > 0 {
      var n := if |x| < 4 then |x| else 4;
      var g, rest := x[..n], x[n..];
      GroupRoundTrip(alpha, rev, g);
      RoundTrip(alpha, rev, rest);
      var s, t := EncodeGroup(alpha, g), Encode(alpha, rest);
      assert |s| == n + 1;
      if n == 4 {
        DecodeAppend(rev, s, t);
      } else {
        assert rest == [] && t == [];
        assert s + t == s;
        assert s[..n + 1] == s;
      }
      assert x == g + rest;
    }
  }
}
