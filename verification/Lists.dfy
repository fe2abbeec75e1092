/**
 Tail queues of connections, as sequences without repetition.
 */
module Lists {
  /** A connection, by identity. */
  type Id = nat

  /** The entries at `i` and `j` differ. */
  ghost predicate Apart(s: seq<Id>, i: int, j: int)
    requires 0 <= i < |s| && 0 <= j < |s|
  {
    s[i] != s[j]
  }

  ghost predicate NoDup(s: seq<Id>)
  {
    forall i, j {:trigger Apart(s, i, j)} | 0 <= i < j < |s| :: Apart(s, i, j)
  }

  /** TAILQ_REMOVE. */
  function Remove(s: seq<Id>, x: Id): seq<Id>
  {
    if s == [] then [] else if s[0] == x then s[1..] else [s[0]] + Remove(s[1..], x)
  }

  lemma NoDupTail(s: seq<Id>)
    requires NoDup(s) && s != []
    ensures NoDup(s[1..]) && s[0] !in s[1..]
  {
    forall i, j | 0 <= i < j < |s[1..]|
      ensures Apart(s[1..], i, j)
    {
      assert Apart(s, i + 1, j + 1);
    }
    forall i | 0 <= i < |s[1..]| ensures s[1..][i] != s[0] { assert Apart(s, 0, i + 1); }
  }

  lemma NoDupCons(x: Id, s: seq<Id>)
    requires NoDup(s) && x !in s
    ensures NoDup([x] + s)
  {
    var r := [x] + s;
    forall i, j | 0 <= i < j < |r|
      ensures Apart(r, i, j)
    {
      assert i > 0 ==> Apart(s, i - 1, j - 1);
    }
  }

  lemma NoDupSnoc(s: seq<Id>, x: Id)
    requires NoDup(s) && x !in s
    ensures NoDup(s + [x])
  {
    var r := s + [x];
    forall i, j | 0 <= i < j < |r|
      ensures Apart(r, i, j)
    {
      assert j < |s| ==> Apart(s, i, j);
    }
  }

  /** Removal takes out exactly the one entry. */
  lemma {:induction false} RemoveExact(s: seq<Id>, x: Id)
    requires NoDup(s)
    ensures NoDup(Remove(s, x)) && x !in Remove(s, x)
    ensures forall y | y != x :: y in Remove(s, x) <==> y in s
    ensures |Remove(s, x)| == |s| - if x in s then 1 else 0
  {
    if s != [] {
      NoDupTail(s);
      if s[0] != x {
        RemoveExact(s[1..], x);
        NoDupCons(s[0], Remove(s[1..], x));
      }
    }
  }

  lemma {:induction false} NotPresent(s: seq<Id>, x: Id)
    requires x !in s
    ensures Remove(s, x) == s
  {
    if s != [] {
      NotPresent(s[1..], x);
    }
  }

  lemma {:induction false} RemoveMiddle(a: seq<Id>, x: Id, b: seq<Id>)
    requires x !in a
    ensures Remove(a + ([x] + b), x) == a + b
  {
    if a == [] {
      assert a + ([x] + b) == [x] + b && a + b == b;
    } else {
      assert (a + ([x] + b))[1..] == a[1..] + ([x] + b);
      RemoveMiddle(a[1..], x, b);
      assert [a[0]] + (a[1..] + b) == a + b;
    }
  }

  lemma NoDupMiddle(a: seq<Id>, x: Id, b: seq<Id>)
    requires NoDup(a + ([x] + b))
    ensures x !in a
  {
    var s := a + ([x] + b);
    forall i | 0 <= i < |a| ensures a[i] != x { assert Apart(s, i, |a|); }
  }

  lemma NoDupConcat(a: seq<Id>, b: seq<Id>)
    requires NoDup(a) && NoDup(b) && forall x <- b :: x !in a
    ensures NoDup(a + b)
  {
    var r := a + b;
    forall i, j | 0 <= i < j < |r|
      ensures Apart(r, i, j)
    {
      if j < |a| {
        assert Apart(a, i, j);
      } else if i >= |a| {
        assert Apart(b, i - |a|, j - |a|);
      } else {
        assert b[j - |a|] in b && a[i] in a;
      }
    }
  }
}
