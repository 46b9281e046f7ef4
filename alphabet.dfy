/**
 * Derivation of the 85-symbol alphabet and its reverse lookup from a key.
 * Without a key the alphabet is the 94 printable bytes 0x21..0x7E in order.
 * With a key, 85 symbols are drawn one at a time from a shrinking ordered
 * pool, each position chosen by a phrase byte reduced modulo the pool size.
 */
module Alphabet {
  import opened Base85

  /** One UTF-16 code unit of the key string, as charCodeAt returns it. */
  type CharCode = c: int | 0 <= c < 0x10000

  /** The printable bytes, 0x21 ('!') through 0x7E ('~'). */
  predicate IsSymbol(c: int)
  {
    0x21 <= c <= 0x7E
  }

  predicate Increasing(s: seq<byte>)
  {
    forall a, b :: 0 <= a < b < |s| ==> s[a] < s[b]
  }

  predicate Distinct(s: seq<byte>)
  {
    forall a, b :: 0 <= a < b < |s| ==> s[a] != s[b]
  }

  /** An alphabet: distinct printable bytes, at least 85 of them. */
  predicate ValidAlphabet(s: seq<byte>)
  {
    |s| >= 85 && Distinct(s) && forall j :: 0 <= j < |s| ==> IsSymbol(s[j])
  }

  /** The 94 printable bytes in ascending order: entry i is 0x21 + i. */
  function Pool(): (r: seq<byte>)
  {
    seq(0x5E, i requires 0 <= i < 0x5E => i + 0x21)
  }

  /** The key clipped to 85 code units, each truncated to its low byte. */
  function Phrase(key: seq<CharCode>): (r: seq<byte>)
  {
    var n := if |key| < 0x55 then |key| else 0x55;
    seq(n, i requires 0 <= i < n => key[i] % 0x100)
  }

  /** pool without its entry at position k; the others keep their order. */
  function Remove(pool: seq<byte>, k: nat): (r: seq<byte>)
    requires k < |pool|
  {
    pool[..k] + pool[k + 1..]
  }

  /**
   * Steps i..84 of the keyed derivation, starting from the live pool of
   * 94 - i symbols not chosen yet: step i takes the pool entry at
   * phrase[i mod |phrase|] mod (94 - i) and removes it from the pool.
   */
  function Pick(pool: seq<byte>, phrase: seq<byte>, i: nat): (r: seq<byte>)
    requires |phrase| > 0 && i <= 0x55 && |pool| == 0x5E - i
    decreases 0x55 - i
  {
    if i == 0x55 then []
    else
      var k := phrase[i % |phrase|] % (0x5E - i);
      [pool[k]] + Pick(Remove(pool, k), phrase, i + 1)
  }

  /** The alphabet for a key; the empty key stands for "no key". */
  function Chars(key: seq<CharCode>): (r: seq<byte>)
  {
    if key == [] then Pool() else Pick(Pool(), Phrase(key), 0)
  }

  /** The reverse lookup before any keyed step: each printable byte to its pool index. */
  function Initial(): (r: map<byte, nat>)
  {
    map c: byte | IsSymbol(c) :: c - 0x21
  }

  /** m with s[i] mapped to i for each i, in increasing order of i. */
  function Overwrite(m: map<byte, nat>, s: seq<byte>): (r: map<byte, nat>)
  {
    if |s| == 0 then m
    else Overwrite(m, s[..|s| - 1])[s[|s| - 1] := |s| - 1]
  }

  /** The reverse lookup for a key. */
  function RevLook(key: seq<CharCode>): (r: map<byte, nat>)
  {
    if key == [] then Initial() else Overwrite(Initial(), Chars(key))
  }

  /** Removing one entry from an ascending pool keeps it ascending and drops exactly that symbol. */
  lemma RemoveFacts(pool: seq<byte>, k: nat)
    requires Increasing(pool) && k < |pool|
    ensures Increasing(Remove(pool, k))
    ensures forall c :: c in Remove(pool, k) <==> c in pool && c != pool[k]
  {
    var r := Remove(pool, k);
    assert forall j :: 0 <= j < |r| ==> r[j] == if j < k then pool[j] else pool[j + 1];
    forall c | c in pool && c != pool[k]
      ensures c in r
    {
      var j :| 0 <= j < |pool| && pool[j] == c;
      assert r[if j < k then j else j - 1] == c;
    }
  }

  /** One keyed step, unfolded. */
  lemma PickStep(pool: seq<byte>, phrase: seq<byte>, i: nat)
    requires |phrase| > 0 && i < 0x55 && |pool| == 0x5E - i
    ensures Pick(pool, phrase, i)
      == [pool[phrase[i % |phrase|] % (0x5E - i)]] + Pick(Remove(pool, phrase[i % |phrase|] % (0x5E - i)), phrase, i + 1)
  {
  }

  /**
   * The live pool holds exactly the printable bytes not chosen yet, in
   * ascending order; choosing its entry k and removing it keeps that so.
   */
  lemma LiveStep(live: seq<byte>, chosen: seq<byte>, k: nat)
    requires Increasing(live) && k < |live|
    requires forall c: byte :: c in live <==> IsSymbol(c) && c !in chosen
    ensures Increasing(Remove(live, k))
    ensures forall c: byte :: c in Remove(live, k) <==> IsSymbol(c) && c !in chosen + [live[k]]
  {
    RemoveFacts(live, k);
  }

  /**
   * The state of the keyed loop after i steps, with chosen the alphabet
   * entries so far and live the pool prefix still in use: the live pool
   * holds exactly the printable bytes not chosen yet, in ascending order,
   * the remaining steps complete the alphabet, and the reverse lookup has
   * recorded each chosen entry's index.
   */
  predicate DrawState(live: seq<byte>, chosen: seq<byte>, rev: map<byte, nat>, phrase: seq<byte>, i: nat,
                      target: seq<byte>)
  {
    |phrase| > 0 && i <= 0x55 && |live| == 0x5E - i && |chosen| == i
    && Increasing(live)
    && (forall c: byte :: c in live <==> IsSymbol(c) && c !in chosen)
    && chosen + Pick(live, phrase, i) == target
    && rev == Overwrite(Initial(), chosen)
  }

  /** Before the first step: the whole pool is live and nothing is chosen. */
  lemma DrawStart(phrase: seq<byte>)
    requires |phrase| > 0
    ensures DrawState(Pool(), [], Initial(), phrase, 0, Pick(Pool(), phrase, 0))
  {
    PoolFacts();
    DrawStartFrom(Pool(), phrase);
  }

  lemma DrawStartFrom(pool: seq<byte>, phrase: seq<byte>)
    requires |phrase| > 0 && |pool| == 0x5E && Increasing(pool)
    requires forall c: byte :: c in pool <==> IsSymbol(c)
    ensures DrawState(pool, [], Initial(), phrase, 0, Pick(pool, phrase, 0))
  {
    var none: seq<byte> := [];
    assert none + Pick(pool, phrase, 0) == Pick(pool, phrase, 0);
    assert forall c: byte :: c in pool <==> IsSymbol(c) && c !in none;
    assert Overwrite(Initial(), none) == Initial();
  }

  /** One keyed step keeps the loop state. */
  lemma DrawStep(live: seq<byte>, chosen: seq<byte>, rev: map<byte, nat>, phrase: seq<byte>, i: nat,
                 target: seq<byte>)
    requires DrawState(live, chosen, rev, phrase, i, target) && i < 0x55
    ensures var k := phrase[i % |phrase|] % (0x5E - i);
      DrawState(Remove(live, k), chosen + [live[k]], rev[live[k] := i], phrase, i + 1, target)
  {
    var k := phrase[i % |phrase|] % (0x5E - i);
    LiveStep(live, chosen, k);
    PickAdvance(live, chosen, phrase, i);
    OverwriteStep(chosen, live[k]);
  }

  /** Moving the next pick from the pending steps to the chosen entries. */
  lemma PickAdvance(live: seq<byte>, chosen: seq<byte>, phrase: seq<byte>, i: nat)
    requires |phrase| > 0 && i < 0x55 && |live| == 0x5E - i
    ensures var k := phrase[i % |phrase|] % (0x5E - i);
      (chosen + [live[k]]) + Pick(Remove(live, k), phrase, i + 1) == chosen + Pick(live, phrase, i)
  {
    PickStep(live, phrase, i);
  }

  /** Recording one more chosen entry in the reverse lookup. */
  lemma OverwriteStep(chosen: seq<byte>, x: byte)
    ensures Overwrite(Initial(), chosen)[x := |chosen|] == Overwrite(Initial(), chosen + [x])
  {
    assert (chosen + [x])[..|chosen|] == chosen;
  }

  /** After the last step the chosen entries are the keyed alphabet. */
  lemma DrawEnd(live: seq<byte>, chosen: seq<byte>, rev: map<byte, nat>, phrase: seq<byte>, target: seq<byte>)
    requires DrawState(live, chosen, rev, phrase, 0x55, target)
    ensures chosen == target
    ensures rev == Overwrite(Initial(), target)
  {
    assert chosen + [] == chosen;
  }

  /**
   * The keyed steps draw without replacement: from an ascending pool they
   * pick 85 - i distinct symbols of that pool.
   */
  lemma {:induction false} PickFacts(pool: seq<byte>, phrase: seq<byte>, i: nat)
    requires |phrase| > 0 && i <= 0x55 && |pool| == 0x5E - i && Increasing(pool)
    ensures |Pick(pool, phrase, i)| == 0x55 - i
    ensures Distinct(Pick(pool, phrase, i))
    ensures forall j :: 0 <= j < |Pick(pool, phrase, i)| ==> Pick(pool, phrase, i)[j] in pool
    decreases 0x55 - i
  {
    if i < 0x55 {
      var k := phrase[i % |phrase|] % (0x5E - i);
      var rest := Remove(pool, k);
      RemoveFacts(pool, k);
      PickFacts(rest, phrase, i + 1);
      PickStep(pool, phrase, i);
      DrawnFresh(pool[k], Pick(rest, phrase, i + 1), rest, pool);
    }
  }

  /**
   * Prefixing distinct symbols of rest with a symbol outside rest keeps
   * them distinct; if all come from pool, so does the result.
   */
  lemma DrawnFresh(x: byte, tail: seq<byte>, rest: seq<byte>, pool: seq<byte>)
    requires Distinct(tail) && x !in rest && x in pool
    requires forall j :: 0 <= j < |tail| ==> tail[j] in rest
    requires forall c :: c in rest ==> c in pool
    ensures Distinct([x] + tail)
    ensures forall j :: 0 <= j < |[x] + tail| ==> ([x] + tail)[j] in pool
  {
    var r := [x] + tail;
    forall a, b | 0 <= a < b < |r|
      ensures r[a] != r[b]
    {
      assert r[b] == tail[b - 1];
      if a > 0 {
        assert r[a] == tail[a - 1];
      }
    }
  }

  /** The pool is ascending and holds exactly the printable bytes. */
  lemma PoolFacts()
    ensures |Pool()| == 0x5E && Increasing(Pool())
    ensures forall c: byte :: c in Pool() <==> IsSymbol(c)
  {
    forall c: byte | IsSymbol(c)
      ensures c in Pool()
    {
      assert Pool()[c - 0x21] == c;
    }
  }

  /**
   * For every key the alphabet is made of distinct printable bytes: 85 of
   * them with a key, the whole pool of 94 without one, where entry i is
   * 0x21 + i.
   */
  lemma AlphabetValid(key: seq<CharCode>)
    ensures ValidAlphabet(Chars(key))
    ensures |Chars(key)| == if key == [] then 0x5E else 0x55
    ensures key == [] ==> forall i :: 0 <= i < 0x5E ==> Chars(key)[i] == 0x21 + i
  {
    PoolFacts();
    if key == [] {
      assert Chars(key) == Pool();
      assert Distinct(Pool());
    } else {
      KeyedAlphabetValid(Phrase(key));
    }
  }

  /** The keyed steps from the full pool give 85 distinct printable bytes. */
  lemma KeyedAlphabetValid(phrase: seq<byte>)
    requires |phrase| > 0
    ensures |Pick(Pool(), phrase, 0)| == 0x55 && ValidAlphabet(Pick(Pool(), phrase, 0))
  {
    PoolFacts();
    DrawnAlphabetValid(Pool(), phrase);
  }

  lemma DrawnAlphabetValid(pool: seq<byte>, phrase: seq<byte>)
    requires |phrase| > 0 && |pool| == 0x5E && Increasing(pool)
    requires forall c: byte :: c in pool ==> IsSymbol(c)
    ensures |Pick(pool, phrase, 0)| == 0x55 && ValidAlphabet(Pick(pool, phrase, 0))
  {
    var r := Pick(pool, phrase, 0);
    PickFacts(pool, phrase, 0);
    forall j | 0 <= j < |r|
      ensures IsSymbol(r[j])
    {
      assert r[j] in pool;
    }
  }

  /**
   * Overwriting the entries of distinct symbols already present keeps the
   * key set, maps s[i] to i, and leaves every other entry as it was.
   */
  lemma {:induction false} OverwriteFacts(m: map<byte, nat>, s: seq<byte>)
    requires Distinct(s) && AllIn(s, m)
    ensures Overwrite(m, s).Keys == m.Keys
    ensures forall i :: 0 <= i < |s| ==> Overwrite(m, s)[s[i]] == i
    ensures forall c :: c in m && c !in s ==> Overwrite(m, s)[c] == m[c]
    decreases |s|
  {
    if |s| > 0 {
      var front := s[..|s| - 1];
      assert Distinct(front) && AllIn(front, m);
      OverwriteFacts(m, front);
      forall i | 0 <= i < |s| - 1
        ensures s[i] != s[|s| - 1] && s[i] == front[i]
      {
      }
    }
  }

  /**
   * The reverse lookup inverts the alphabet on its 85 slots, is defined
   * exactly on the printable bytes, and keeps the pool index for every
   * printable byte the key left unchosen.
   */
  lemma RevLookFacts(key: seq<CharCode>)
    ensures Inverts(Chars(key), RevLook(key))
    ensures forall c: byte :: c in RevLook(key) <==> IsSymbol(c)
    ensures forall c: byte :: c in RevLook(key) && c !in Chars(key)[..0x55] ==> RevLook(key)[c] == c - 0x21
  {
    AlphabetValid(key);
    var alpha := Chars(key);
    assert forall c: byte :: c in Initial() <==> IsSymbol(c);
    if key == [] {
      forall c: byte | c in Initial() && c !in alpha[..0x55]
        ensures Initial()[c] == c - 0x21
      {
      }
    } else {
      assert alpha[..0x55] == alpha;
      OverwriteFacts(Initial(), alpha);
    }
  }

  /**
   * What the codec relies on, for every key: a valid alphabet, a reverse
   * lookup that inverts it and is defined on exactly the printable bytes.
   */
  lemma TablesValid(key: seq<CharCode>, alpha: seq<byte>, rev: map<byte, nat>)
    requires alpha == Chars(key) && rev == RevLook(key)
    ensures ValidAlphabet(alpha) && Inverts(alpha, rev)
    ensures forall c: byte :: c in rev <==> IsSymbol(c)
  {
    AlphabetValid(key);
    RevLookFacts(key);
  }

  /**
   * Only the phrase matters: keys that agree on their first 85 code units
   * modulo 256 (and are both empty or both not) give the same alphabet and
   * reverse lookup.
   */
  lemma SamePhrase(k1: seq<CharCode>, k2: seq<CharCode>)
    requires (k1 == []) == (k2 == [])
    requires (if |k1| < 0x55 then |k1| else 0x55) == (if |k2| < 0x55 then |k2| else 0x55)
    requires forall i :: 0 <= i < |k1| && i < 0x55 ==> k1[i] % 0x100 == k2[i] % 0x100
    ensures Chars(k1) == Chars(k2) && RevLook(k1) == RevLook(k2)
  {
    assert Phrase(k1) == Phrase(k2);
  }
}
