/** The behaviour of the `java.util.List` operations the services use on an
    entity's association list: `add` appends, `contains` is membership, and
    `remove(Object)` drops the first occurrence. Entities are compared by id. */
module Lists {

  /** No element occurs twice. */
  predicate NoDup<T(==)>(s: seq<T>) {
    forall i, j | 0 <= i < j < |s| :: s[i] != s[j]
  }

  /** The position of the first occurrence of `x` in `s`. */
  function IndexOf<T(==)>(s: seq<T>, x: T): (i: nat)
    requires x in s
    ensures i < |s| && s[i] == x
    ensures x !in s[..i]
  {
    if s[0] == x then 0
    else
      var j := IndexOf(s[1..], x);
      assert s[..j + 1] == [s[0]] + s[1..][..j];
      1 + j
  }

  /** `List.remove(Object)`: the list without the first occurrence of `x`;
      the list itself when `x` does not occur. */
  function RemoveFirst<T(==)>(s: seq<T>, x: T): (r: seq<T>)
    ensures x !in s ==> r == s
    ensures multiset(r) == multiset(s) - multiset{x}
  {
    if s == [] then []
    else if s[0] == x then
      assert s == [x] + s[1..];
      assert multiset(s) == multiset{x} + multiset(s[1..]);
      s[1..]
    else
      var rest := RemoveFirst(s[1..], x);
      assert s == [s[0]] + s[1..];
      ConsRemovedCount(s, x, rest);
      [s[0]] + rest
  }

  /** Where RemoveFirst cuts the list: at the first occurrence of `x`. */
  lemma {:induction false} RemoveFirstAt<T>(s: seq<T>, x: T)
    requires x in s
    ensures RemoveFirst(s, x) == s[..IndexOf(s, x)] + s[IndexOf(s, x) + 1..]
  {
    if s[0] != x {
      assert s == [s[0]] + s[1..];
      RemoveFirstAt(s[1..], x);
      ConsRemovedAt(s, x, RemoveFirst(s[1..], x));
    }
  }

  /** The recursive case of RemoveFirst, keeping a head that differs from `x`. */
  lemma ConsRemovedCount<T>(s: seq<T>, x: T, rest: seq<T>)
    requires s != [] && s[0] != x
    requires multiset(rest) == multiset(s[1..]) - multiset{x}
    ensures multiset([s[0]] + rest) == multiset(s) - multiset{x}
  {
    assert s == [s[0]] + s[1..];
    assert multiset(s) == multiset{s[0]} + multiset(s[1..]);
    assert multiset([s[0]] + rest) == multiset{s[0]} + multiset(rest);
  }

  /** The recursive case of RemoveFirstAt. */
  lemma ConsRemovedAt<T>(s: seq<T>, x: T, rest: seq<T>)
    requires s != [] && s[0] != x && x in s[1..]
    requires rest == s[1..][..IndexOf(s[1..], x)] + s[1..][IndexOf(s[1..], x) + 1..]
    ensures [s[0]] + rest == s[..IndexOf(s, x)] + s[IndexOf(s, x) + 1..]
  {
  }

  /** The characterisation of IndexOf determines it. */
  lemma IndexOfUnique<T>(s: seq<T>, x: T, i: nat)
    requires i < |s| && s[i] == x && x !in s[..i]
    ensures IndexOf(s, x) == i
  {
  }

  /** Appending an element that was absent and then removing it gives the
      original list back. */
  lemma {:induction false} RemoveFirstAppended<T>(s: seq<T>, x: T)
    requires x !in s
    ensures RemoveFirst(s + [x], x) == s
  {
    IndexOfUnique(s + [x], x, |s|);
    RemoveFirstAt(s + [x], x);
    assert (s + [x])[..|s|] == s;
  }

  /** Removing adds no element and loses none other than `x`. */
  lemma RemoveFirstMembers<T>(s: seq<T>, x: T)
    ensures forall y | y in RemoveFirst(s, x) :: y in s
    ensures forall y | y in s && y != x :: y in RemoveFirst(s, x)
  {
  }

  /** Removing from a duplicate-free list removes every occurrence and keeps
      the list duplicate-free. */
  lemma {:induction false} RemoveFirstNoDup<T>(s: seq<T>, x: T)
    requires NoDup(s)
    ensures NoDup(RemoveFirst(s, x))
    ensures x !in RemoveFirst(s, x)
  {
    if x in s {
      var i := IndexOf(s, x);
      var r := RemoveFirst(s, x);
      RemoveFirstAt(s, x);
      forall a, b | 0 <= a < b < |r|
        ensures r[a] != r[b]
      {
        DropAt(s, i, a);
        DropAt(s, i, b);
      }
      forall k | 0 <= k < |r|
        ensures r[k] != x
      {
        DropAt(s, i, k);
      }
    }
  }

  /** Where an element of a list with position `i` dropped comes from. */
  lemma DropAt<T>(s: seq<T>, i: nat, k: nat)
    requires i < |s| && k < |s| - 1
    ensures (s[..i] + s[i + 1..])[k] == s[if k < i then k else k + 1]
  {
  }

  /** The loop of `addAuthors`: each element of `xs`, in order, is appended
      when it is not already present. */
  function AddAbsent<T(==)>(s: seq<T>, xs: seq<T>): (r: seq<T>)
    ensures s <= r
    ensures forall x | x in xs :: x in r
    ensures forall i | |s| <= i < |r| :: r[i] in xs && r[i] !in r[..i]
    decreases |xs|
  {
    if xs == [] then s
    else
      var init := xs[..|xs| - 1];
      var acc := AddAbsent(s, init);
      var x := xs[|xs| - 1];
      assert xs == init + [x];
      if x in acc then acc
      else
        assert (acc + [x])[..|acc|] == acc;
        acc + [x]
  }

  /** AddAbsent over one more element of the list. */
  lemma AddAbsentStep<T>(s: seq<T>, xs: seq<T>, i: nat)
    requires i < |xs|
    ensures AddAbsent(s, xs[..i + 1]) ==
      var acc := AddAbsent(s, xs[..i]);
      if xs[i] in acc then acc else acc + [xs[i]]
  {
    assert xs[..i + 1][..i] == xs[..i];
  }

  /** When every element of `xs` is already present nothing is appended. */
  lemma {:induction false} AddAbsentPresent<T>(s: seq<T>, xs: seq<T>)
    requires forall x | x in xs :: x in s
    ensures AddAbsent(s, xs) == s
    decreases |xs|
  {
    if xs != [] {
      var init := xs[..|xs| - 1];
      assert forall x | x in init :: x in xs;
      AddAbsentPresent(s, init);
    }
  }

  /** Adding the same elements a second time changes nothing. */
  lemma AddAbsentTwice<T>(s: seq<T>, xs: seq<T>)
    ensures AddAbsent(AddAbsent(s, xs), xs) == AddAbsent(s, xs)
  {
    AddAbsentPresent(AddAbsent(s, xs), xs);
  }

  /** A duplicate-free list stays duplicate-free. */
  lemma AddAbsentNoDup<T>(s: seq<T>, xs: seq<T>)
    requires NoDup(s)
    ensures NoDup(AddAbsent(s, xs))
  {
  }

  /** Appending keeps a list duplicate-free exactly when the element is new. */
  lemma AppendNoDup<T>(s: seq<T>, x: T)
    ensures NoDup(s + [x]) <==> NoDup(s) && x !in s
  {
    var t := s + [x];
    assert forall k | 0 <= k < |s| :: t[k] == s[k];
    assert t[|s|] == x;
  }

  /** The position of the first element of `xs` that is not in `present`,
      or `|xs|` when they all are. */
  function FirstMissing<T>(xs: seq<T>, present: set<T>): (k: nat)
    ensures k <= |xs|
    ensures forall j | 0 <= j < k :: xs[j] in present
    ensures k < |xs| ==> xs[k] !in present
  {
    if xs == [] || xs[0] !in present then 0
    else 1 + FirstMissing(xs[1..], present)
  }
}
