/**
 * The R85 codec object: construction derives and caches the alphabet
 * (chars) and its reverse lookup (revLook); encode and decode are loops
 * over groups that fill a preallocated output buffer.
 */
module Codec {
  import opened Digits
  import opened Base85
  import opened Alphabet

  /**
   * Array.prototype.copyWithin(target, start, end) for target <= start:
   * the entries start..end-1 move down to target, the rest stays put.
   */
  method CopyWithin(a: array<byte>, target: nat, start: nat, end: nat)
    requires target <= start <= end <= a.Length
    modifies a
    ensures a[..] == old(a[..target]) + old(a[start..end]) + old(a[target + (end - start)..])
  {
    ghost var o := a[..];
    ghost var moved := o[start..end];
    var m := 0;
    while m < end - start
      invariant 0 <= m <= end - start
      invariant a[..] == o[..target] + moved[..m] + o[target + m..]
    {
      CopyFacts(a[..], o, target, start, end, m);
      PutNext(a, target, o[..target], moved, o[target + m..], m, a[start + m]);
      m := m + 1;
    }
    assert moved[..end - start] == moved;
  }

  /** What the copy loop needs at step m: the source entry is still unmoved. */
  lemma CopyFacts(cur: seq<byte>, o: seq<byte>, target: nat, start: nat, end: nat, m: nat)
    requires target <= start <= end <= |o| && m < end - start
    requires cur == o[..target] + o[start..end][..m] + o[target + m..]
    ensures cur[start + m] == o[start..end][m]
    ensures o[target + m..][1..] == o[target + m + 1..]
  {
    assert cur[start + m] == o[target + m..][start - target];
  }

  /** Node's 'ascii' text view of a buffer: each byte with its high bit cleared. */
  function AsciiText(bs: seq<byte>): (r: string)
    ensures |r| == |bs|
    ensures forall i :: 0 <= i < |bs| && bs[i] < 0x80 ==> r[i] as int == bs[i]
  {
    seq(|bs|, i requires 0 <= i < |bs| => (bs[i] % 0x80) as char)
  }

  /** The working pool 0x21..0x7E and the reverse lookup of each to its pool index. */
  method FillPool() returns (pool: array<byte>, rev: map<byte, nat>)
    ensures fresh(pool)
    ensures pool[..] == Pool() && rev == Initial()
  {
    pool := new byte[0x5E];
    rev := map[];
    for i := 0 to 0x5E
      invariant pool[..i] == Pool()[..i]
      invariant forall c: byte :: c in rev <==> 0x21 <= c < 0x21 + i
      invariant forall c :: c in rev ==> rev[c] == c - 0x21
    {
      pool[i] := i + 0x21;
      rev := rev[i + 0x21 := i];
    }
    assert pool[..] == Pool();
    assert rev == Initial();
  }

  /** The phrase buffer: the first 85 code units of the key, each cut to its low byte. */
  method FillPhrase(key: seq<CharCode>) returns (phrase: array<byte>)
    ensures fresh(phrase)
    ensures phrase[..] == Phrase(key)
  {
    var phraseLength := if |key| < 0x55 then |key| else 0x55;
    phrase := new byte[phraseLength];
    for i := 0 to phraseLength
      invariant phrase[..i] == Phrase(key)[..i]
    {
      phrase[i] := key[i] % 0x100;
    }
    assert phrase[..] == phrase[..phraseLength];
  }

  /**
   * The keyed steps in place: step i takes the live pool entry at
   * phrase[i mod |phrase|] mod (94 - i) as alphabet entry i, records its
   * index in the reverse lookup and shifts the rest of the live prefix
   * down over it. After i steps the live prefix pool[..94 - i] holds, in
   * ascending order, exactly the printable bytes not chosen yet.
   */
  method DrawAlphabet(pool: array<byte>, phrase: array<byte>, rev0: map<byte, nat>)
      returns (alpha: array<byte>, rev: map<byte, nat>)
    requires pool != phrase && phrase.Length > 0
    requires pool[..] == Pool() && rev0 == Initial()
    modifies pool
    ensures fresh(alpha)
    ensures alpha[..] == Pick(Pool(), phrase[..], 0)
    ensures rev == Overwrite(Initial(), alpha[..])
  {
    alpha := new byte[0x55];
    DrawStart(phrase[..]);
    assert pool[..0x5E] == pool[..] && alpha[..0] == [];
    rev := DrawSteps(pool, phrase, alpha, rev0, Pick(Pool(), phrase[..], 0));
  }

  /** The 85 keyed steps, drawing towards the alphabet target the derivation specifies. */
  method DrawSteps(pool: array<byte>, phrase: array<byte>, alpha: array<byte>, rev0: map<byte, nat>,
                   ghost target: seq<byte>)
      returns (rev: map<byte, nat>)
    requires pool != phrase && pool != alpha && alpha != phrase
    requires pool.Length == 0x5E && alpha.Length == 0x55
    requires DrawState(pool[..0x5E], alpha[..0], rev0, phrase[..], 0, target)
    modifies pool, alpha
    ensures alpha[..] == target && rev == Overwrite(Initial(), alpha[..])
  {
    rev := rev0;
    for i := 0 to 0x55
      invariant DrawState(pool[..0x5E - i], alpha[..i], rev, phrase[..], i, target)
    {
      rev := DrawOne(pool, phrase, alpha, rev, i, target);
    }
    DrawDone(pool[..], alpha[..], rev, phrase[..], target);
  }

  /** Keyed step i: the drawn pool entry becomes alphabet entry i and leaves the live prefix. */
  method DrawOne(pool: array<byte>, phrase: array<byte>, alpha: array<byte>, rev0: map<byte, nat>, i: nat,
                 ghost target: seq<byte>)
      returns (rev: map<byte, nat>)
    requires pool != phrase && pool != alpha && alpha != phrase && phrase.Length > 0
    requires pool.Length == 0x5E && alpha.Length == 0x55 && i < 0x55
    requires DrawState(pool[..0x5E - i], alpha[..i], rev0, phrase[..], i, target)
    modifies pool, alpha
    ensures DrawState(pool[..0x5E - (i + 1)], alpha[..i + 1], rev, phrase[..], i + 1, target)
  {
    ghost var alphaBefore := alpha[..];
    var k := phrase[i % phrase.Length] % (0x5E - i);
    alpha[i] := pool[k];
    rev := rev0[pool[k] := i];
    ghost var poolBefore := pool[..];
    CopyWithin(pool, k, k + 1, 0x5E - i);
    DrawInPlace(poolBefore, pool[..], alphaBefore, alpha[..], rev0, phrase[..], i, k, target);
  }

  /** After the last step the whole alphabet array is the keyed alphabet. */
  lemma DrawDone(poolAfter: seq<byte>, alphaAfter: seq<byte>, rev: map<byte, nat>, phrase: seq<byte>,
                 target: seq<byte>)
    requires |poolAfter| == 0x5E && |alphaAfter| == 0x55
    requires DrawState(poolAfter[..0x5E - 0x55], alphaAfter[..0x55], rev, phrase, 0x55, target)
    ensures alphaAfter == target && rev == Overwrite(Initial(), alphaAfter)
  {
    DrawEnd(poolAfter[..0x5E - 0x55], alphaAfter[..0x55], rev, phrase, target);
    assert alphaAfter[..0x55] == alphaAfter;
  }

  /**
   * One keyed step on the arrays: entry k of the live prefix becomes
   * alphabet entry i and copyWithin(k, k + 1, 94 - i) closes the gap.
   */
  lemma DrawInPlace(poolBefore: seq<byte>, poolAfter: seq<byte>, alphaBefore: seq<byte>,
                    alphaAfter: seq<byte>, rev: map<byte, nat>, phrase: seq<byte>, i: nat, k: nat,
                    target: seq<byte>)
    requires i < 0x55 && |poolBefore| == 0x5E && |alphaBefore| == 0x55
    requires DrawState(poolBefore[..0x5E - i], alphaBefore[..i], rev, phrase, i, target)
    requires k == phrase[i % |phrase|] % (0x5E - i)
    requires alphaAfter == alphaBefore[i := poolBefore[k]]
    requires poolAfter == poolBefore[..k] + poolBefore[k + 1..0x5E - i] + poolBefore[k + (0x5E - i - (k + 1))..]
    ensures DrawState(poolAfter[..0x5E - (i + 1)], alphaAfter[..i + 1], rev[poolBefore[k] := i], phrase, i + 1, target)
  {
    var live, chosen := poolBefore[..0x5E - i], alphaBefore[..i];
    DrawStep(live, chosen, rev, phrase, i, target);
    ShiftedPrefix(poolBefore, poolAfter, k, 0x5E - i);
    var live', chosen', rev' := Remove(live, k), chosen + [live[k]], rev[live[k] := i];
    assert DrawState(live', chosen', rev', phrase, i + 1, target);
    assert poolAfter[..0x5E - (i + 1)] == live';
    assert alphaAfter[..i + 1] == chosen';
    assert rev[poolBefore[k] := i] == rev';
  }

  /** What copyWithin(k, k + 1, n) leaves in the first n - 1 entries: the first n without entry k. */
  lemma ShiftedPrefix(before: seq<byte>, after: seq<byte>, k: nat, n: nat)
    requires k < n <= |before|
    requires after == before[..k] + before[k + 1..n] + before[k + (n - (k + 1))..]
    ensures after[..n - 1] == Remove(before[..n], k)
  {
    var a, b := before[..k], before[k + 1..n];
    assert after[..n - 1] == a + b;
    assert before[..n][..k] == a && before[..n][k + 1..] == b;
  }

  /**
   * Walking n items in groups of w: full groups while they fit, then the
   * non-empty remainder, which ends the walk.
   */
  lemma GroupStep(n: nat, w: nat, i: nat, groups: nat, len: nat)
    requires w > 0 && i < n && i == w * groups && i <= n - n % w
    requires len == if i >= n - n % w then n % w else w
    ensures len == (if n - i < w then n - i else w) && len > 0
    ensures (i + len == w * (groups + 1) && i + len <= n - n % w) || i + len == n
  {
    var q := n / w;
    DivModParts(n, w);
    if i < n - n % w {
      MulStep(groups, q, w);
    }
  }

  /** The input length less its remainder is the number of whole groups times w. */
  lemma WholeGroups(n: nat, w: nat)
    requires w > 0
    ensures n - n % w == w * (n / w) && (n - n % w) / w == n / w
  {
    DivModParts(n, w);
    DivModUnique(n - n % w, w, n / w, 0);
  }

  /** Below w·q, a multiple w·g leaves room for one more group of w. */
  lemma MulStep(g: nat, q: nat, w: nat)
    requires w > 0 && w * g < w * q
    ensures w * (g + 1) == w * g + w <= w * q
  {
    if g >= q {
      MulLeft(q, g, w);
    }
    MulLeft(g + 1, q, w);
  }

  /** ECMAScript ToInt32 of an integer: its low 32 bits read in two's complement. */
  function ToInt32(x: int): (r: int)
    ensures -0x8000_0000 <= r < 0x8000_0000
    ensures 0 <= x < 0x8000_0000 ==> r == x
    ensures 0x8000_0000 <= x < 0x1_0000_0000 ==> r == x - 0x1_0000_0000
  {
    var w := x % 0x1_0000_0000;
    if w < 0x8000_0000 then w else w - 0x1_0000_0000
  }

  /** ToInt32 keeps the low 32 bits. */
  lemma Int32Bits(x: int)
    ensures ToInt32(x) % 0x1_0000_0000 == x % 0x1_0000_0000
  {
    var w := x % 0x1_0000_0000;
    if w >= 0x8000_0000 {
      DivModUnique(w, 0x1_0000_0000, 0, w);
      assert ToInt32(x) + 0x1_0000_0000 == w;
    }
  }

  /**
   * The packing loop of encode, on 32-bit integers: byte k is shifted left
   * by 8k bits (ToInt32 of the product) and or'ed in. Its bits lie above
   * those packed so far, so the or adds the low 32 bits of both. The fourth
   * byte may make the result negative, and the source then adds 2^32.
   */
  method PackBytes(input: seq<byte>, i: nat, len: nat) returns (v: nat)
    requires i + len <= |input| && len <= 4
    ensures v == Value(input[i..i + len], 256)
  {
    ghost var g := input[i..i + len];
    var acc: int := 0;
    var k := 0;
    while k < len
      invariant 0 <= k <= len
      invariant acc == ToInt32(Value(g[..k], 256))
    {
      assert g[k] == input[i + k];
      var shifted := ToInt32(input[i + k] * Pow(256, k));
      acc := ToInt32(acc % 0x1_0000_0000 + shifted % 0x1_0000_0000);
      PackStep(g, k);
      k := k + 1;
    }
    assert g[..len] == g;
    GroupBelow32(g);
    Unsigned32(Value(g, 256));
    if acc < 0 {
      acc := acc + 0x1_0000_0000;
    }
    v := acc;
  }

  /** Adding 2^32 to a negative ToInt32 result recovers the unsigned 32-bit value. */
  lemma Unsigned32(x: int)
    requires 0 <= x < 0x1_0000_0000
    ensures (if ToInt32(x) < 0 then ToInt32(x) + 0x1_0000_0000 else ToInt32(x)) == x
  {
    DivModUnique(x, 0x1_0000_0000, 0, x);
  }

  /** One step of the packing loop keeps acc at the low 32 bits of the packed prefix. */
  lemma PackStep(g: seq<byte>, k: nat)
    requires k < |g| <= 4
    ensures ToInt32(ToInt32(Value(g[..k], 256)) % 0x1_0000_0000 + ToInt32(g[k] * Pow(256, k)) % 0x1_0000_0000)
            == ToInt32(Value(g[..k + 1], 256))
  {
    var low, t := Value(g[..k], 256), g[k] * Pow(256, k);
    GroupBelow32(g[..k]);
    GroupBelow32(g[..k + 1]);
    ValueNext(g, 256, k);
    assert low + t == Value(g[..k + 1], 256) < 0x1_0000_0000;
    Int32Bits(low);
    Int32Bits(t);
    DivModUnique(low, 0x1_0000_0000, 0, low);
    DivModUnique(t, 0x1_0000_0000, 0, t);
    assert ToInt32(low) % 0x1_0000_0000 + ToInt32(t) % 0x1_0000_0000 == low + t;
  }

  /**
   * The packing loop of decode: the digit of symbol k weighs 85^k; a byte
   * without a reverse-lookup entry is undefined there and turns the sum
   * into NaN.
   */
  method PackSymbols(rev: map<byte, nat>, input: seq<byte>, i: nat, len: nat) returns (v: Num)
    requires i + len <= |input| && len <= 5
    ensures v == GroupNum(rev, input[i..i + len])
  {
    Pow85Table();
    ghost var g := input[i..i + len];
    v := Finite(0);
    var k := 0;
    assert g[..0] == [];
    while k < len
      invariant 0 <= k <= len
      invariant v == GroupNum(rev, g[..k])
    {
      GroupNumNext(rev, g, k);
      assert g[k] == input[i + k];
      var term := if input[i + k] in rev then Finite(rev[input[i + k]] * POW85[k]) else NaN;
      v := Add(v, term);
      k := k + 1;
    }
    assert g[..len] == g;
  }

  /**
   * The emitting loop of decode: writes v >> 8k & 0xFF for k < n to
   * output[j..j+n].
   */
  method EmitBytes(output: array<byte>, j: nat, v: Num, n: nat)
    requires n <= 4 && j + n <= output.Length
    modifies output
    ensures output[..] == old(output[..j]) + NumBytes(v, n) + old(output[j + n..])
  {
    ghost var w := NumBytes(v, n);
    var k := 0;
    while k < n
      invariant 0 <= k <= n
      invariant output[..] == old(output[..j]) + w[..k] + old(output[j + k..])
    {
      assert old(output[j + k..])[1..] == old(output[j + k + 1..]);
      PutNext(output, j, old(output[..j]), w, old(output[j + k..]), k, ShiftByte(v, k));
      k := k + 1;
    }
  }

  /** Writes entry k of w just after pre + w[..k], extending the copied part by one. */
  method PutNext(output: array<byte>, j: nat, ghost pre: seq<byte>, ghost w: seq<byte>, ghost suf: seq<byte>, k: nat, b: byte)
    requires k < |w| && |suf| > 0 && j == |pre| && b == w[k] && output[..] == pre + w[..k] + suf
    modifies output
    ensures output[..] == pre + w[..k + 1] + suf[1..]
  {
    SpliceNext(pre, w, suf, k);
    output[j + k] := b;
  }

  /** Writing entry k of w just after pre + w[..k] extends the copied part by one. */
  lemma SpliceNext(pre: seq<byte>, w: seq<byte>, suf: seq<byte>, k: nat)
    requires k < |w| && |suf| > 0
    ensures (pre + w[..k] + suf)[|pre| + k := w[k]] == pre + w[..k + 1] + suf[1..]
  {
    assert w[..k + 1] == w[..k] + [w[k]];
  }

  /** After writing w at position |pre|, the array up to the end of w is pre + w. */
  lemma SplicePrefix(pre: seq<byte>, w: seq<byte>, suf: seq<byte>)
    ensures (pre + w + suf)[..|pre| + |w|] == pre + w
  {
  }

  /**
   * The body of decode's loop: the group input[i..i+len] looked up, packed
   * and emitted as len-1 bytes at output[j..], which extends the decoding
   * of the groups before it by one group.
   */
  method DecodeGroupAt(rev: map<byte, nat>, output: array<byte>, input: seq<byte>, i: nat, len: nat, j: nat, ghost groups: nat)
    requires i == 5 * groups && 1 <= len <= 5 && i + len <= |input| && j + len - 1 <= output.Length
    requires output[..j] == Base85.Decode(rev, input[..i])
    modifies output
    ensures output[..] == old(output[..j]) + DecodeGroup(rev, input[i..i + len]) + old(output[j + len - 1..])
    ensures output[..j + len - 1] == Base85.Decode(rev, input[..i + len])
  {
    DecodeExtend(rev, input, groups, len);
    ghost var before := output[..];
    var v := PackSymbols(rev, input, i, len);
    EmitBytes(output, j, v, len - 1);
    SplicePrefix(before[..j], DecodeGroup(rev, input[i..i + len]), before[j + len - 1..]);
  }

  /**
   * The constructor's work: the pool and its reverse lookup, then, when a
   * key is given, the phrase and the keyed draw; without a key the pool
   * itself is the alphabet.
   */
  method BuildTables(key: seq<CharCode>) returns (alpha: array<byte>, rev: map<byte, nat>)
    ensures fresh(alpha)
    ensures alpha[..] == Chars(key) && rev == RevLook(key)
  {
    var pool;
    pool, rev := FillPool();
    if key != [] {
      var phrase := FillPhrase(key);
      alpha, rev := DrawAlphabet(pool, phrase, rev);
    } else {
      alpha := pool;
    }
  }

  class R85 {
    var chars: array<byte>
    var revLook: map<byte, nat>

    /**
     * chars holds distinct printable bytes (94 without a key, 85 with one),
     * revLook inverts its first 85 entries and is defined on every
     * printable byte.
     */
    ghost predicate Valid()
      reads this, chars
    {
      ValidAlphabet(chars[..]) && Inverts(chars[..], revLook)
      && forall c: byte :: c in revLook <==> IsSymbol(c)
    }

    constructor (key: seq<CharCode>)
      ensures Valid()
      ensures chars[..] == Chars(key) && revLook == RevLook(key)
    {
      var alpha, rev := BuildTables(key);
      chars := alpha;
      revLook := rev;
      new;
      TablesValid(key, chars[..], revLook);
    }

    /**
     * The emitting loop of encode: writes the alphabet entries at the first
     * n base-85 digits of v to output[j..j+n].
     */
    method EmitSymbols(output: array<byte>, j: nat, v: nat, n: nat)
      requires chars.Length >= 0x55 && output != chars && n <= 5 && j + n <= output.Length
      modifies output
      ensures output[..] == old(output[..j]) + Symbols(chars[..], v, n) + old(output[j + n..])
    {
      Pow85Table();
      ghost var w := Symbols(chars[..], v, n);
      var k := 0;
      while k < n
        invariant 0 <= k <= n
        invariant output[..] == old(output[..j]) + w[..k] + old(output[j + k..])
      {
        assert old(output[j + k..])[1..] == old(output[j + k + 1..]);
        PutNext(output, j, old(output[..j]), w, old(output[j + k..]), k, chars[v / POW85[k] % 0x55]);
        k := k + 1;
      }
    }

    /**
     * The body of encode's loop: the group input[i..i+len] packed and
     * emitted as len+1 symbols at output[j..], which extends the encoding
     * of the groups before it by one group.
     */
    method EncodeGroupAt(output: array<byte>, input: seq<byte>, i: nat, len: nat, j: nat, ghost groups: nat)
      requires chars.Length >= 0x55 && output != chars
      requires i == 4 * groups && 1 <= len <= 4 && i + len <= |input| && j + len + 1 <= output.Length
      requires output[..j] == Base85.Encode(chars[..], input[..i])
      modifies output
      ensures output[..] == old(output[..j]) + Symbols(chars[..], Value(input[i..i + len], 256), len + 1)
                            + old(output[j + len + 1..])
      ensures output[..j + len + 1] == Base85.Encode(chars[..], input[..i + len])
    {
      ghost var before := output[..];
      var v := PackBytes(input, i, len);
      EmitSymbols(output, j, v, len + 1);
      EncodeExtend(chars[..], input, groups, len);
      SplicePrefix(before[..j], EncodeGroup(chars[..], input[i..i + len]), before[j + len + 1..]);
    }

    /** Encodes a buffer: groups of four bytes become five symbols, a tail of r bytes r+1. */
    method Encode(input: seq<byte>) returns (output: array<byte>)
      requires Valid()
      ensures fresh(output)
      ensures output[..] == Base85.Encode(chars[..], input)
    {
      ghost var alpha := chars[..];
      var trLen := |input| % 4;
      var exLen := |input| - trLen;
      WholeGroups(|input|, 4);
      output := new byte[exLen / 4 * 5 + (if trLen != 0 then trLen + 1 else 0)];
      var i, j := 0, 0;
      ghost var groups := 0;
      while i < |input|
        invariant (i == 4 * groups && j == 5 * groups && i <= exLen) || (i == |input| && j == output.Length)
        invariant output[..j] == Base85.Encode(alpha, input[..i])
        decreases |input| - i
      {
        var len := if i >= exLen then trLen else 4;
        GroupStep(|input|, 4, i, groups, len);
        EncodeGroupAt(output, input, i, len, j, groups);
        i, j, groups := i + len, j + len + 1, groups + 1;
      }
      assert input[..i] == input && output[..j] == output[..];
    }

    /**
     * Decodes a buffer: groups of five bytes become four, a tail of r bytes
     * r-1 (none for a lone byte). Bytes without a reverse-lookup entry are
     * not rejected; they make their group's bytes 0.
     */
    method Decode(input: seq<byte>) returns (output: array<byte>)
      ensures fresh(output)
      ensures output[..] == Base85.Decode(revLook, input)
    {
      var rev := revLook;
      var trLen := |input| % 5;
      var exLen := |input| - trLen;
      WholeGroups(|input|, 5);
      output := new byte[exLen / 5 * 4 + (if trLen != 0 then trLen - 1 else 0)];
      var i, j := 0, 0;
      ghost var groups := 0;
      assert input[..0] == [];
      while i < |input|
        invariant (i == 5 * groups && j == 4 * groups && i <= exLen) || (i == |input| && j == output.Length)
        invariant output[..j] == Base85.Decode(rev, input[..i])
        decreases |input| - i
      {
        var len := if i >= exLen then trLen else 5;
        GroupStep(|input|, 5, i, groups, len);
        DecodeGroupAt(rev, output, input, i, len, j, groups);
        i, j, groups := i + len, j + len - 1, groups + 1;
      }
      assert input[..i] == input && output[..j] == output[..];
    }

    /** The encoding as text; every symbol is printable ASCII, so each character is its byte. */
    method EncodeToString(input: seq<byte>) returns (s: string)
      requires Valid()
      ensures |s| == |Base85.Encode(chars[..], input)|
      ensures forall i :: 0 <= i < |s| ==> s[i] as int == Base85.Encode(chars[..], input)[i]
    {
      var output := Encode(input);
      EncodeUsesAlphabet(chars[..], input);
      s := AsciiText(output[..]);
      forall i | 0 <= i < |s|
        ensures s[i] as int == output[i]
      {
        var d :| 0 <= d < 0x55 && chars[..][d] == output[i];
      }
    }
  }

  /** For every key, decoding an encoding with the same key gives back the input. */
  lemma KeyedRoundTrip(key: seq<CharCode>, x: seq<byte>)
    ensures |Chars(key)| >= 0x55
    ensures AllIn(Base85.Encode(Chars(key), x), RevLook(key))
    ensures Base85.Decode(RevLook(key), Base85.Encode(Chars(key), x)) == x
  {
    AlphabetValid(key);
    RevLookFacts(key);
    RoundTrip(Chars(key), RevLook(key), x);
  }

  /** The euro-sign fixture without a key: its UTF-8 bytes E2 82 AC encode to the text "3eC3". */
  lemma EuroEncodes()
    ensures |Chars([])| >= 0x55
    ensures Base85.Encode(Chars([]), [0xE2, 0x82, 0xAC]) == [0x33, 0x65, 0x43, 0x33]
  {
    var g: seq<byte> := [0xE2, 0x82, 0xAC];
    var alpha := Chars([]);
    AlphabetValid([]);
    EncodeSingle(alpha, g);
    ValueNext(g, 256, 0);
    ValueNext(g, 256, 1);
    ValueNext(g, 256, 2);
    assert g[..3] == g && g[..0] == [];
    assert Value(g, 256) == 0xAC82E2;
    FourSymbols(alpha, 0xAC82E2, 18, 68, 34, 18);
    assert alpha == Pool();
    calc {
      Base85.Encode(alpha, g);
      EncodeGroup(alpha, g);
      Symbols(alpha, 0xAC82E2, 4);
      [alpha[18], alpha[68], alpha[34], alpha[18]];
      [0x33, 0x65, 0x43, 0x33];
    }
  }

  /** The same fixture backwards: "3eC3" decodes to the bytes E2 82 AC. */
  lemma EuroDecodes()
    ensures AllIn([0x33, 0x65, 0x43, 0x33], RevLook([]))
    ensures Base85.Decode(RevLook([]), [0x33, 0x65, 0x43, 0x33]) == [0xE2, 0x82, 0xAC]
  {
    var g: seq<byte> := [0xE2, 0x82, 0xAC];
    var e: seq<byte> := [0x33, 0x65, 0x43, 0x33];
    EuroEncodes();
    KeyedRoundTrip([], g);
    assert Base85.Encode(Chars([]), g) == e;
  }

  /** The four symbols of a three-byte group, given its four base-85 digits. */
  lemma FourSymbols(alpha: seq<byte>, v: nat, d0: nat, d1: nat, d2: nat, d3: nat)
    requires |alpha| >= 0x55
    requires d0 == v % 85 && d1 == v / 85 % 85 && d2 == v / 7225 % 85 && d3 == v / 614125 % 85
    ensures Symbols(alpha, v, 4) == [alpha[d0], alpha[d1], alpha[d2], alpha[d3]]
  {
    Pow85Table();
  }
}
