/**
 The multi-layer hash table (src/usnet/cache.c): every layer has its own modulus, a key may sit in
 any layer at its own probe position, and removal just empties the cell.
 */
module HashCache {
  import opened Words

  // ----- the moduli

  ghost predicate Prime(n: int)
  {
    n >= 2 && forall d | 2 <= d < n :: n % d != 0
  }

  /** The primes above `lo` up to `hi`, largest first. */
  ghost function PrimesDown(hi: int, lo: nat): seq<int>
    decreases if hi < 0 then 0 else hi
  {
    if hi <= lo then [] else (if Prime(hi) then [hi] else []) + PrimesDown(hi - 1, lo)
  }

  /** No number from 2 to `s` divides `i`. */
  ghost predicate Passes(i: int, s: nat)
  {
    forall k | 2 <= k <= s :: i % k != 0
  }

  /** A proper divisor comes with one no larger than the root. */
  lemma SmallDivisor(i: int, d: int, s: nat)
    requires 2 <= d < i && i % d == 0 && i < (s + 1) * (s + 1)
    ensures !Passes(i, s)
  {
    var e := i / d;
    assert i == d * e;
    if d > s {
      Cofactor(i, d, e, s);
    }
  }

  lemma Order(a: int, b: int, c: int)
    requires a <= b && 0 <= c
    ensures a * c <= b * c
  {
  }

  lemma Cofactor(i: int, d: int, e: int, s: nat)
    requires i == d * e && s < d < i && 2 <= d && i < (s + 1) * (s + 1)
    ensures 2 <= e <= s && i % e == 0
  {
    if e <= 0 {
      Order(e, 0, d);
    } else if e == 1 {
      assert false;
    } else if e > s {
      Order(s + 1, d, s + 1);
      Order(s + 1, e, d);
      assert false;
    }
    Multiple(i, d, e);
  }

  lemma Multiple(x: int, q: int, e: int)
    requires e > 0 && x == q * e
    ensures x % e == 0
  {
    var k := q - x / e;
    assert x == (x / e) * e + x % e;
    assert k * e == q * e - (x / e) * e;
    assert k >= 1 ==> k * e >= e;
    assert k <= -1 ==> k * e <= -e;
  }

  /** Above the root, trial division by the numbers up to the root decides primality. */
  lemma TrialDecides(i: int, s: nat)
    requires s < i < (s + 1) * (s + 1) && i >= 2
    ensures Passes(i, s) <==> Prime(i)
  {
    if Passes(i, s) {
      forall d | 2 <= d < i
        ensures i % d != 0
      {
        if i % d == 0 {
          SmallDivisor(i, d, s);
        }
      }
    }
  }

  /** Down to the root, only 1 passes: everything else divides itself. */
  lemma OnlyOnePasses(i: int, s: nat)
    requires 1 <= i <= s
    ensures Passes(i, s) <==> i == 1
  {
    if i >= 2 {
      assert i % i == 0;
    }
  }

  method Trial(i: int, s: nat) returns (flag: bool)
    ensures flag <==> Passes(i, s)
  {
    var k := 2;
    while k <= s
      invariant 2 <= k && forall j | 2 <= j < k && j <= s :: i % j != 0
    {
      if i % k == 0 {
        return false;
      }
      k := k + 1;
    }
    flag := true;
  }

  /** The candidates from `i` down, in the order the search meets them: the primes above the root, then 1. */
  ghost function Candidates(i: int, s: nat): seq<int>
  {
    PrimesDown(i, Max(s, 1)) + (if i >= 1 then [1] else [])
  }

  lemma CandidateStep(i: int, s: nat)
    requires i < (s + 1) * (s + 1)
    ensures i >= 1 ==> Candidates(i, s) == (if Passes(i, s) then [i] else []) + Candidates(i - 1, s)
    ensures i < 1 ==> Candidates(i, s) == []
  {
    if i >= 1 {
      if i > Max(s, 1) {
        TrialDecides(i, s);
      } else if s >= 1 && i <= s {
        OnlyOnePasses(i, s);
        if i == 1 {
          assert PrimesDown(0, Max(s, 1)) == [];
        }
      }
    }
  }

  /** The candidates are distinct, decreasing and in range, and all but a final 1 are prime. */
  lemma {:induction false} CandidatesAreModuli(i: int, s: nat)
    ensures forall a | 0 <= a < |Candidates(i, s)| :: 1 <= Candidates(i, s)[a] <= i
    ensures forall a, b | 0 <= a < b < |Candidates(i, s)| :: Candidates(i, s)[a] > Candidates(i, s)[b]
    ensures forall a | 0 <= a < |PrimesDown(i, Max(s, 1))| :: Prime(Candidates(i, s)[a])
    decreases if i < 0 then 0 else i
  {
    if i > Max(s, 1) {
      CandidatesAreModuli(i - 1, s);
      assert Candidates(i, s) == (if Prime(i) then [i] else []) + Candidates(i - 1, s);
    }
  }

  /**
   usnet_hashbase_init with `s` the integer root of `len`: the moduli are the largest primes up to
   `len`, in order, and 1 after the primes above the root run out; then the program gives up.
   */
  method Moduli(len: nat, time: nat, s: nat) returns (base: seq<int>, ok: bool)
    requires s * s <= len < (s + 1) * (s + 1)
    ensures ok <==> time <= |Candidates(len, s)|
    ensures ok ==> base == Candidates(len, s)[..time]
  {
    hide Candidates;
    ghost var all := Candidates(len, s);
    base := [];
    var i: int := len;
    CandidateStep(i, s);
    while |base| < time
      invariant -1 <= i <= len && |base| <= time && base + Candidates(i, s) == all
      invariant i <= 0 ==> base == all
      decreases i + 2
    {
      CandidateStep(i, s);
      var flag := Trial(i, s);
      if flag {
        if i <= 0 {
          return base, false;
        }
        base := base + [i];
      }
      i := i - 1;
      CandidateStep(i, s);
      assert i == -1 ==> Passes(i, s);
    }
    ok := true;
  }

  // ----- the table

  /** A cell; the key 0 (all fields zero) means empty. */
  datatype Entry = Entry(key: nat, payload: int)

  /** Where a search ended if it found no layer. */
  const NOWHERE: int := -1

  class HashCache {
    const base: seq<int>
    const hash: nat -> u32
    /** One row of `hb_len` cells per layer, laid out row by row in the source. */
    const table: array2<Entry>

    ghost predicate Shape()
    {
      && table.Length0 == |base|
      && forall i | 0 <= i < |base| :: 0 < base[i] <= table.Length1
    }

    /** The probe position of a key in a layer. */
    function Probe(i: nat, key: nat): (v: nat)
      requires Shape() && i < |base|
      ensures v < table.Length1
    {
      hash(key) % base[i]
    }

    /** Layer `i` holds the key; for the key 0, its probe cell there is empty. */
    predicate Holds(key: nat, i: nat)
      requires Shape() && i < |base|
      reads table
    {
      table[i, Probe(i, key)].key == key
    }

    /** The key is stored. */
    ghost predicate Stored(key: nat)
      requires Shape()
      reads table
    {
      exists i: nat :: i < |base| && Holds(key, i)
    }

    /** Every occupied cell is its key's own probe cell in that layer. */
    ghost predicate Valid()
      reads table
    {
      && Shape()
      && forall i, v {:trigger table[i, v]} | 0 <= i < table.Length0 && 0 <= v < table.Length1 && table[i, v].key != 0 ::
           v == Probe(i, table[i, v].key)
    }

    /** No key is in two layers: so it is as long as only absent keys are inserted. */
    ghost predicate Unique()
      requires Shape()
      reads table
    {
      forall key: nat, i: nat, j: nat {:trigger Holds(key, i), Holds(key, j)} |
        key != 0 && i < |base| && j < |base| && Holds(key, i) && Holds(key, j) :: i == j
    }

    constructor (base: seq<int>, len: nat, hash: nat -> u32)
      requires forall i | 0 <= i < |base| :: 0 < base[i] <= len
      ensures Valid() && Unique() && fresh(table) && this.base == base && forall key: nat | key != 0 :: !Stored(key)
    {
      this.base, this.hash := base, hash;
      table := new Entry[|base|, len]((i, j) => Entry(0, 0));
    }

    /** usnet_cache_search: the first layer that holds the key; a key is found if and only if it is stored. */
    method Search(key: nat) returns (i: int)
      requires Valid()
      ensures i == NOWHERE <==> !Stored(key)
      ensures i != NOWHERE ==> 0 <= i < |base| && Holds(key, i) && forall m: nat | m < i :: !Holds(key, m)
    {
      for j := 0 to |base|
        invariant forall m: nat | m < j :: !Holds(key, m)
      {
        if table[j, Probe(j, key)].key == key {
          assert Holds(key, j);
          return j;
        }
      }
      i := NOWHERE;
    }

    /** usnet_cache_get: the first layer whose probe cell is empty, none if and only if all are occupied. */
    method Get(key: nat) returns (i: int)
      requires Valid()
      ensures i == NOWHERE <==> forall m | 0 <= m < |base| :: table[m, Probe(m, key)].key != 0
      ensures i != NOWHERE ==> 0 <= i < |base| && table[i, Probe(i, key)].key == 0
      ensures forall m | 0 <= m < i :: table[m, Probe(m, key)].key != 0
    {
      for j := 0 to |base|
        invariant forall m | 0 <= m < j :: table[m, Probe(m, key)].key != 0
      {
        if table[j, Probe(j, key)].key == 0 {
          return j;
        }
      }
      i := NOWHERE;
    }

    /**
     usnet_cache_insert, which does not look for the key first: it fails if and only if every probe
     cell is occupied, otherwise the key is stored and nobody else's cell is touched; an absent key
     is then in exactly one layer, one already stored in two.
     */
    method Insert(key: nat, payload: int) returns (i: int)
      requires Valid() && key != 0
      modifies table
      ensures Valid()
      ensures i == NOWHERE <==> forall m | 0 <= m < |base| :: old(table[m, Probe(m, key)].key) != 0
      ensures i != NOWHERE ==> 0 <= i < |base| && table[i, Probe(i, key)] == Entry(key, payload) && !old(Holds(key, i))
      ensures forall a, b | 0 <= a < table.Length0 && 0 <= b < table.Length1 && !(a == i && b == Probe(a, key)) :: table[a, b] == old(table[a, b])
      ensures forall k: nat, m: nat | k != 0 && m < |base| :: Holds(k, m) <==> old(Holds(k, m)) || (k == key && m == i)
      ensures old(Unique()) ==> (Unique() <==> i == NOWHERE || !old(Stored(key)))
    {
      i := Get(key);
      if i != NOWHERE {
        table[i, Probe(i, key)] := Entry(key, payload);
        forall k: nat, m: nat | k != 0 && m < |base|
          ensures Holds(k, m) <==> old(Holds(k, m)) || (k == key && m == i)
        {
        }
        assert Holds(key, i);
      }
      if old(Stored(key)) {
        var j: nat :| j < |base| && old(Holds(key, j));
        assert Holds(key, j);
      }
    }

    /**
     usnet_cache_remove of the item in a cell: no other key is hidden by the hole, and the key itself
     is gone unless it had been inserted twice.
     */
    method Remove(i: nat, v: nat)
      requires Valid() && i < table.Length0 && v < table.Length1
      modifies table
      ensures Valid() && table[i, v].key == 0
      ensures forall a, b | 0 <= a < table.Length0 && 0 <= b < table.Length1 && !(a == i && b == v) :: table[a, b] == old(table[a, b])
      ensures forall k: nat, m: nat | k != 0 && m < |base| :: Holds(k, m) <==> old(Holds(k, m)) && !(k == old(table[i, v].key) && m == i)
      ensures old(Unique()) ==> Unique() && (old(table[i, v].key) != 0 ==> !Stored(old(table[i, v].key)))
    {
      ghost var key := table[i, v].key;
      assert key != 0 ==> Holds(key, i);
      table[i, v] := table[i, v].(key := 0);
      forall k: nat, m: nat | k != 0 && m < |base|
        ensures Holds(k, m) <==> old(Holds(k, m)) && !(k == key && m == i)
      {
      }
    }
  }
}
