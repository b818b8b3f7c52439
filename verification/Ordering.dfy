/** Strictly sorted lists of byte strings: what `[...new Set(names)].sort()` yields. */
module Ordering {
  import opened Common

  type Name = seq<byte>

  predicate Less(a: Name, b: Name) {
    b != [] && (a == [] || a[0] < b[0] || (a[0] == b[0] && Less(a[1..], b[1..])))
  }

  lemma {:induction false} LessIsTotal(a: Name, b: Name)
    ensures a == b || Less(a, b) || Less(b, a)
    ensures !(Less(a, b) && Less(b, a))
    decreases |a|
  {
    if a != [] && b != [] {
      LessIsTotal(a[1..], b[1..]);
      assert a == [a[0]] + a[1..] && b == [b[0]] + b[1..];
    }
  }

  lemma {:induction false} LessIsTransitive(a: Name, b: Name, c: Name)
    requires Less(a, b) && Less(b, c)
    ensures Less(a, c)
    decreases |a|
  {
    if a != [] && a[0] == b[0] == c[0] {
      LessIsTransitive(a[1..], b[1..], c[1..]);
    }
  }

  /** `a` and `b` first differ at `k`, and `a` has the smaller byte there. */
  predicate SmallerAt(a: Name, b: Name, k: nat) {
    k < |a| && k < |b| && a[..k] == b[..k] && a[k] < b[k]
  }

  lemma {:induction false} PrefixIsLess(a: Name, b: Name)
    requires a < b
    ensures Less(a, b)
  {
    if a != [] {
      assert a[0] == b[..|a|][0] && a[1..] == b[..|a|][1..] == b[1..][..|a| - 1];
      PrefixIsLess(a[1..], b[1..]);
    }
  }

  lemma {:induction false} SmallerIsLess(a: Name, b: Name, k: nat)
    requires SmallerAt(a, b, k)
    ensures Less(a, b)
    decreases k
  {
    if k > 0 {
      assert a[0] == a[..k][0] == b[0];
      assert a[1..][..k - 1] == a[..k][1..] == b[1..][..k - 1];
      SmallerIsLess(a[1..], b[1..], k - 1);
    }
  }

  lemma {:induction false} WhyLess(a: Name, b: Name) returns (k: nat)
    requires Less(a, b)
    ensures a < b || SmallerAt(a, b, k)
    decreases |a|
  {
    k := 0;
    if a != [] {
      assert a == [a[0]] + a[1..] && b == [b[0]] + b[1..];
      if a[0] == b[0] {
        var rest := WhyLess(a[1..], b[1..]);
        k := rest + 1;
        if !(a[1..] < b[1..]) {
          assert a[..k] == [a[0]] + a[1..][..rest] && b[..k] == [b[0]] + b[1..][..rest];
        }
      }
    }
  }

  /** Dictionary order: the shorter of two of which one begins the other, else the first difference. */
  lemma LessIsDictionaryOrder(a: Name, b: Name)
    ensures Less(a, b) <==> a < b || exists k: nat :: SmallerAt(a, b, k)
  {
    if Less(a, b) {
      var k := WhyLess(a, b);
    } else if a < b {
      PrefixIsLess(a, b);
    } else if k: nat :| SmallerAt(a, b, k) {
      SmallerIsLess(a, b, k);
    }
  }

  ghost predicate StrictlySorted(names: seq<Name>) {
    forall i, j :: 0 <= i < j < |names| ==> Less(names[i], names[j])
  }

  function Insert(name: Name, names: seq<Name>): seq<Name> {
    if names == [] || Less(name, names[0]) then [name] + names
    else if name == names[0] then names
    else [names[0]] + Insert(name, names[1..])
  }

  lemma {:induction false} InsertSorts(name: Name, names: seq<Name>)
    requires StrictlySorted(names)
    ensures StrictlySorted(Insert(name, names))
    ensures forall x :: x in Insert(name, names) <==> x == name || x in names
  {
    hide Less;
    if names == [] {
    } else if Less(name, names[0]) {
      forall j | 0 <= j < |names| ensures Less(name, names[j]) {
        if j > 0 { LessIsTransitive(name, names[0], names[j]); }
      }
    } else if name != names[0] {
      InsertSorts(name, names[1..]);
      LessIsTotal(name, names[0]);
      var tail := Insert(name, names[1..]);
      forall j | 0 <= j < |tail| ensures Less(names[0], tail[j]) {
        assert tail[j] in tail;
        if tail[j] != name {
          var i :| 0 <= i < |names| - 1 && names[1..][i] == tail[j];
        }
      }
      assert names == [names[0]] + names[1..];
    }
  }

  /** Sorted and de-duplicated. */
  function SortedDistinct(names: seq<Name>): seq<Name> {
    if names == [] then [] else Insert(names[0], SortedDistinct(names[1..]))
  }

  lemma {:induction false} SortedDistinctIsTheSet(names: seq<Name>)
    ensures StrictlySorted(SortedDistinct(names))
    ensures forall x :: x in SortedDistinct(names) <==> x in names
  {
    if names != [] {
      SortedDistinctIsTheSet(names[1..]);
      InsertSorts(names[0], SortedDistinct(names[1..]));
      assert names == [names[0]] + names[1..];
    }
  }

  /** A strictly sorted list is determined by its members. */
  lemma {:induction false} SortedListIsItsSet(a: seq<Name>, b: seq<Name>)
    requires StrictlySorted(a) && StrictlySorted(b)
    requires forall x :: x in a <==> x in b
    ensures a == b
  {
    hide Less;
    HeadIsMember(a);
    HeadIsMember(b);
    if a != [] && b != [] {
      assert a[0] in b;
      assert b[0] in a;
      var i :| 0 <= i < |b| && b[i] == a[0];
      var j :| 0 <= j < |a| && a[j] == b[0];
      LessIsTotal(a[0], b[0]);
      assert a[0] == b[0];
      forall x ensures x in a[1..] <==> x in b[1..] {
        Tail(a, x);
        Tail(b, x);
      }
      SortedListIsItsSet(a[1..], b[1..]);
      assert a == [a[0]] + a[1..] && b == [b[0]] + b[1..];
    }
  }

  lemma HeadIsMember(a: seq<Name>)
    ensures a != [] ==> a[0] in a
  {
  }

  lemma Tail(a: seq<Name>, x: Name)
    requires StrictlySorted(a) && a != []
    ensures x in a[1..] <==> x in a && x != a[0]
  {
    hide Less;
    LessIsTotal(a[0], a[0]);
    assert a == [a[0]] + a[1..];
    if x in a[1..] {
      var i :| 0 <= i < |a| - 1 && a[1..][i] == x;
      assert Less(a[0], a[i + 1]);
    }
  }

  /** Two lists normalise alike exactly when they have the same members, in any order. */
  lemma NormalFormIsTheSet(a: seq<Name>, b: seq<Name>)
    ensures SortedDistinct(a) == SortedDistinct(b) <==> (forall x :: x in a <==> x in b)
  {
    hide Less;
    SortedDistinctIsTheSet(a);
    SortedDistinctIsTheSet(b);
    if forall x :: x in a <==> x in b {
      SortedListIsItsSet(SortedDistinct(a), SortedDistinct(b));
    }
  }
}
