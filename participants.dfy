/** Participant lists of an event, and the JavaScript array operations the
    engine in src/services/DBE.service.ts applies to them: the bot filter of
    `formatUsersFormCompare`, `Array.prototype.sort` on strings, `indexOf`,
    `splice(start, 1)` and `[...new Set(list)]`. Everything here is a value;
    the engine's class in module Dbe uses these as the specification of what
    it writes. */
module Participants {

  /** A chat user identifier (a Discord snowflake, kept as text). */
  type UserId = string

  /** No identifier occurs twice. */
  predicate NoDup<T(==)>(s: seq<T>)
  {
    forall i, j :: 0 <= i < j < |s| ==> s[i] != s[j]
  }

  // ---------------------------------------------------------------------------
  // Filtering one identifier out (formatUsersFormCompare; ideal set-remove)
  // ---------------------------------------------------------------------------

  /** The elements of `s` other than `x`, in their original order. With `x`
      the bot's own id this is what `formatUsersFormCompare` pushes while it
      walks the reactor map; with `x` a participant it is the ideal set-remove
      that the reaction handler is meant to perform. */
  function Without(s: seq<UserId>, x: UserId): (r: seq<UserId>)
    ensures forall y :: y in r <==> y in s && y != x
    ensures |r| <= |s|
    ensures NoDup(s) ==> NoDup(r)
  {
    if s == [] then []
    else
      var p := s[..|s| - 1];
      assert NoDup(s) ==> NoDup(p) && s[|s| - 1] !in p;
      if s[|s| - 1] != x then Without(p, x) + [s[|s| - 1]] else Without(p, x)
  }

  lemma {:induction false} WithoutAbsent(s: seq<UserId>, x: UserId)
    requires x !in s
    ensures Without(s, x) == s
  {
    if s != [] {
      assert x !in s[..|s| - 1];
      WithoutAbsent(s[..|s| - 1], x);
      assert s == s[..|s| - 1] + [s[|s| - 1]];
    }
  }

  lemma {:induction false} WithoutAppend(a: seq<UserId>, b: seq<UserId>, x: UserId)
    ensures Without(a + b, x) == Without(a, x) + Without(b, x)
    decreases |b|
  {
    if b == [] {
      assert a + b == a;
    } else {
      var b' := b[..|b| - 1];
      assert (a + b)[..|a + b| - 1] == a + b';
      assert (a + b)[|a + b| - 1] == b[|b| - 1];
      WithoutAppend(a, b', x);
    }
  }

  // ---------------------------------------------------------------------------
  // [...new Set(list)]: keep the first occurrence of every element
  // ---------------------------------------------------------------------------

  /** The list `[...new Set(s)]`: a Set remembers insertion order, so each
      element stays where it first occurred and later repeats are dropped. */
  function Dedup(s: seq<UserId>): (r: seq<UserId>)
    ensures NoDup(r)
    ensures forall y :: y in r <==> y in s
    ensures |r| <= |s|
  {
    if s == [] then []
    else
      var d := Dedup(s[..|s| - 1]);
      if s[|s| - 1] in d then d else d + [s[|s| - 1]]
  }

  /** A list that already has no repeats passes through the Set unchanged. */
  lemma {:induction false} DedupOfNoDup(s: seq<UserId>)
    requires NoDup(s)
    ensures Dedup(s) == s
  {
    if s != [] {
      var p := s[..|s| - 1];
      assert NoDup(p);
      DedupOfNoDup(p);
      assert s[|s| - 1] !in p;
      assert s == p + [s[|s| - 1]];
    }
  }

  /** The Set keeps first occurrences in their order: of two elements of the
      result, the one that first occurs earlier in `s` comes first. */
  lemma {:induction false} DedupKeepsOrder(s: seq<UserId>)
    ensures forall i, j | 0 <= i < j < |Dedup(s)| :: IndexOf(s, Dedup(s)[i]) < IndexOf(s, Dedup(s)[j])
  {
    if s != [] {
      var p, x := s[..|s| - 1], s[|s| - 1];
      var d := Dedup(p);
      DedupKeepsOrder(p);
      assert s == p + [x];
      forall y | y in p ensures IndexOf(s, y) == IndexOf(p, y) {
        IndexOfAppend(p, x, y);
      }
      if x !in d {
        forall i, j | 0 <= i < j < |d + [x]| ensures IndexOf(s, (d + [x])[i]) < IndexOf(s, (d + [x])[j]) {
          if j == |d| {
            assert (d + [x])[i] == d[i] && d[i] in p;
          } else {
            assert (d + [x])[i] == d[i] && (d + [x])[j] == d[j];
          }
        }
      }
    }
  }

  /** Appending an element does not move the first occurrence of an element
      already present. */
  lemma IndexOfAppend(p: seq<UserId>, x: UserId, y: UserId)
    requires y in p
    ensures IndexOf(p + [x], y) == IndexOf(p, y)
  {
    var s := p + [x];
    var r, q := IndexOf(p, y), IndexOf(s, y);
    assert s[r] == y;
    assert forall k | 0 <= k < q :: s[..q][k] == s[k];
    assert forall k | 0 <= k < r :: p[..r][k] == p[k] == s[k];
  }

  // ---------------------------------------------------------------------------
  // indexOf and splice(start, 1)
  // ---------------------------------------------------------------------------

  /** `s.indexOf(x)`: the first index holding `x`, or -1. */
  function IndexOf(s: seq<UserId>, x: UserId): (r: int)
    ensures -1 <= r < |s|
    ensures r == -1 <==> x !in s
    ensures 0 <= r ==> s[r] == x && x !in s[..r]
  {
    if s == [] then -1
    else if s[0] == x then 0
    else
      var k := IndexOf(s[1..], x);
      if k == -1 then -1
      else
        assert s[..k + 1] == [s[0]] + s[1..][..k];
        k + 1
  }

  function Min(a: int, b: int): int { if a <= b then a else b }
  function Max(a: int, b: int): int { if a <= b then b else a }

  /** `s.splice(start, 1)` on the array `s`, as ECMAScript defines it: a
      negative start counts from the end (and is clamped at 0), a start past
      the end is clamped to the length, and at most one element is removed. */
  function Splice1(s: seq<UserId>, start: int): seq<UserId>
  {
    var from := if start < 0 then Max(|s| + start, 0) else Min(start, |s|);
    s[..from] + s[Min(from + 1, |s|)..]
  }

  /** `s.splice(s.indexOf(u), 1)`, the removal branch of `editParticipants`.
      When `u` is absent, indexOf gives -1 and splice(-1, 1) removes the LAST
      element; an empty list stays empty. */
  function RemoveByIndexOf(s: seq<UserId>, u: UserId): (r: seq<UserId>)
    ensures u in s ==> r == s[..IndexOf(s, u)] + s[IndexOf(s, u) + 1..]
    ensures u !in s && s != [] ==> r == s[..|s| - 1]
    ensures s == [] ==> r == []
    ensures |r| == if s == [] then 0 else |s| - 1
  {
    Splice1(s, IndexOf(s, u))
  }

  /** Removing one position keeps a list free of repeats. */
  lemma RemoveAtNoDup(s: seq<UserId>, i: nat)
    requires i < |s| && NoDup(s)
    ensures NoDup(s[..i] + s[i + 1..])
  {
    var r := s[..i] + s[i + 1..];
    forall a, b | 0 <= a < b < |r| ensures r[a] != r[b] {
      var a' := if a < i then a else a + 1;
      var b' := if b < i then b else b + 1;
      assert r[a] == s[a'] && r[b] == s[b'] && a' < b';
    }
  }

  // ---------------------------------------------------------------------------
  // The participant mutation of editParticipants
  // ---------------------------------------------------------------------------

  /** The new participant list after a reaction: push `u` (add) or splice it
      out by indexOf (remove), then de-duplicate through a Set. The result
      never holds a repeat, and adding makes `u` a participant. */
  function Mutate(s: seq<UserId>, u: UserId, add: bool): (r: seq<UserId>)
    ensures NoDup(r)
    ensures add ==> forall y :: y in r <==> y in s || y == u
    ensures !add ==> forall y :: y in r ==> y in s
  {
    Dedup(if add then s + [u] else RemoveByIndexOf(s, u))
  }

  /** On a list without repeats, adding appends `u` at the end when it is new
      and changes nothing when `u` is already there. */
  lemma AddToNoDup(s: seq<UserId>, u: UserId)
    requires NoDup(s)
    ensures Mutate(s, u, true) == if u in s then s else s + [u]
  {
    DedupOfNoDup(s);
    assert (s + [u])[..|s + [u]| - 1] == s;
  }

  /** Adding the same user twice is the same as adding once. */
  lemma AddIdempotent(s: seq<UserId>, u: UserId)
    ensures Mutate(Mutate(s, u, true), u, true) == Mutate(s, u, true)
  {
    var r := Mutate(s, u, true);
    AddToNoDup(r, u);
  }

  /** On a list without repeats, the removal deletes exactly the first (and
      only) occurrence of a present user, and the Set pass changes nothing. */
  lemma RemoveFromNoDup(s: seq<UserId>, u: UserId)
    requires NoDup(s)
    ensures u in s ==> Mutate(s, u, false) == s[..IndexOf(s, u)] + s[IndexOf(s, u) + 1..]
    ensures u !in s ==> Mutate(s, u, false) == if s == [] then [] else s[..|s| - 1]
  {
    var r := RemoveByIndexOf(s, u);
    if u in s {
      RemoveAtNoDup(s, IndexOf(s, u));
    } else if s != [] {
      assert NoDup(s[..|s| - 1]);
    }
    DedupOfNoDup(r);
  }

  /** The removal agrees with an ideal set-remove on a list without repeats
      exactly when the user is present or the list is empty: removing an
      absent user from a non-empty list drops the last participant instead. */
  lemma RemoveIsSetRemoveIff(s: seq<UserId>, u: UserId)
    requires NoDup(s)
    ensures Mutate(s, u, false) == Without(s, u) <==> (u in s || s == [])
  {
    if u in s {
      RemovePresent(s, u);
    } else if s != [] {
      RemoveAbsent(s, u);
    }
  }

  lemma RemovePresent(s: seq<UserId>, u: UserId)
    requires NoDup(s) && u in s
    ensures Mutate(s, u, false) == Without(s, u)
  {
    var i := IndexOf(s, u);
    var cut := s[..i] + s[i + 1..];
    assert RemoveByIndexOf(s, u) == cut;
    RemoveAtNoDup(s, i);
    DedupOfNoDup(cut);
    CutIsWithout(s, u, i);
  }

  lemma RemoveAbsent(s: seq<UserId>, u: UserId)
    requires NoDup(s) && u !in s && s != []
    ensures Mutate(s, u, false) != Without(s, u)
  {
    RemoveFromNoDup(s, u);
    WithoutAbsent(s, u);
    assert |Mutate(s, u, false)| == |s| - 1;
  }

  /** Cutting out the only occurrence of `u` is filtering `u` out. */
  lemma CutIsWithout(s: seq<UserId>, u: UserId, i: nat)
    requires NoDup(s) && i < |s| && s[i] == u
    ensures s[..i] + s[i + 1..] == Without(s, u)
  {
    var a, b := s[..i], s[i + 1..];
    assert s == a + [u] + b;
    assert u !in a by {
      forall k | 0 <= k < i ensures a[k] != u { assert s[k] != s[i]; }
    }
    assert u !in b by {
      forall k | 0 <= k < |b| ensures b[k] != u { assert s[i + 1 + k] != s[i]; }
    }
    WithoutAppend(a + [u], b, u);
    WithoutAppend(a, [u], u);
    WithoutAbsent(a, u);
    WithoutAbsent(b, u);
    assert Without([u], u) == [];
  }

  /** Two removals of one user are not one removal: the second finds the user
      gone and drops another participant. */
  lemma RemoveTwiceDropsAnother(s: seq<UserId>, u: UserId)
    requires NoDup(s) && u in s && |s| >= 2
    ensures var once := Mutate(s, u, false);
            Mutate(once, u, false) == once[..|once| - 1] && Mutate(once, u, false) != once
  {
    var once := Mutate(s, u, false);
    RemoveFromNoDup(s, u);
    var i := IndexOf(s, u);
    assert u !in once by {
      forall k | 0 <= k < |once| ensures once[k] != u {
        if k < i { assert once[k] == s[k]; } else { assert once[k] == s[k + 1] && s[i] != s[k + 1]; }
      }
    }
    RemoveFromNoDup(once, u);
  }

  // ---------------------------------------------------------------------------
  // Array.prototype.sort on strings: code-unit lexicographic order
  // ---------------------------------------------------------------------------

  /** `a` sorts no later than `b` under the default comparison of
      `Array.prototype.sort`: lexicographic on character codes, a proper prefix
      first. */
  predicate Below(a: string, b: string)
  {
    |a| == 0 || (|b| != 0 && (a[0] < b[0] || (a[0] == b[0] && Below(a[1..], b[1..]))))
  }

  lemma {:induction false} BelowReflexive(a: string)
    ensures Below(a, a)
  {
    if |a| != 0 {
      BelowReflexive(a[1..]);
    }
  }

  lemma {:induction false} BelowTotal(a: string, b: string)
    ensures Below(a, b) || Below(b, a)
  {
    if |a| != 0 && |b| != 0 && a[0] == b[0] {
      BelowTotal(a[1..], b[1..]);
    }
  }

  lemma {:induction false} BelowAntisymmetric(a: string, b: string)
    requires Below(a, b) && Below(b, a)
    ensures a == b
  {
    if |a| != 0 && |b| != 0 {
      BelowAntisymmetric(a[1..], b[1..]);
      assert a == [a[0]] + a[1..] && b == [b[0]] + b[1..];
    }
  }

  lemma {:induction false} BelowTransitive(a: string, b: string, c: string)
    requires Below(a, b) && Below(b, c)
    ensures Below(a, c)
  {
    if |a| != 0 && |b| != 0 && |c| != 0 && a[0] == b[0] == c[0] {
      BelowTransitive(a[1..], b[1..], c[1..]);
    }
  }

  predicate Sorted(s: seq<string>)
  {
    forall i, j {:trigger Below(s[i], s[j])} :: 0 <= i < j < |s| ==> Below(s[i], s[j])
  }

  /** Insertion of one string into a sorted list. */
  function Insert(x: string, s: seq<string>): (r: seq<string>)
    ensures multiset(r) == multiset(s) + multiset{x}
  {
    if s == [] then [x]
    else if Below(x, s[0]) then [x] + s
    else
      assert s == [s[0]] + s[1..];
      [s[0]] + Insert(x, s[1..])
  }

  lemma {:induction false} InsertSorted(x: string, s: seq<string>)
    requires Sorted(s)
    ensures Sorted(Insert(x, s))
  {
    if s == [] {
    } else if Below(x, s[0]) {
      var r := [x] + s;
      forall i, j | 0 <= i < j < |r| ensures Below(r[i], r[j]) {
        if i == 0 && j > 1 { BelowTransitive(x, s[0], s[j - 1]); }
      }
    } else {
      BelowTotal(x, s[0]);
      InsertSorted(x, s[1..]);
      var t := Insert(x, s[1..]);
      var r := [s[0]] + t;
      forall j | 0 <= j < |t| ensures Below(s[0], t[j]) {
        assert t[j] in multiset(t);
        assert t[j] in multiset(s[1..]) || t[j] == x;
        if t[j] != x {
          var k :| 0 <= k < |s[1..]| && s[1..][k] == t[j];
          assert s[k + 1] == t[j];
        }
      }
      forall i, j | 0 <= i < j < |r| ensures Below(r[i], r[j]) {
        if i == 0 { assert r[j] == t[j - 1]; } else { assert r[i] == t[i - 1] && r[j] == t[j - 1]; }
      }
    }
  }

  /** The sorted copy of `s` that `s.sort()` leaves in the array. */
  function Sort(s: seq<string>): (r: seq<string>)
    ensures multiset(r) == multiset(s)
    ensures |r| == |s|
  {
    if s == [] then []
    else
      assert s == [s[0]] + s[1..];
      Insert(s[0], Sort(s[1..]))
  }

  lemma {:induction false} SortSorted(s: seq<string>)
    ensures Sorted(Sort(s))
  {
    if s != [] {
      SortSorted(s[1..]);
      InsertSorted(s[0], Sort(s[1..]));
    }
  }

  /** Two sorted lists with the same elements, repeats counted, are equal:
      any correct sort of a list gives the same array. */
  lemma {:induction false} SortedUnique(s: seq<string>, t: seq<string>)
    requires Sorted(s) && Sorted(t) && multiset(s) == multiset(t)
    ensures s == t
    decreases |s|
  {
    if s != [] {
      SortedHeads(s, t);
      SortedUnique(s[1..], t[1..]);
      SameHeadSameTail(s, t);
    }
  }

  /** Two sorted lists with the same non-empty multiset start alike, and
      their tails are sorted lists with the same multiset. */
  lemma SortedHeads(s: seq<string>, t: seq<string>)
    requires Sorted(s) && Sorted(t) && multiset(s) == multiset(t) && s != []
    ensures t != [] && s[0] == t[0]
    ensures Sorted(s[1..]) && Sorted(t[1..]) && multiset(s[1..]) == multiset(t[1..])
  {
    assert |t| == |s| by { assert |multiset(s)| == |multiset(t)|; }
    SortedHeadFirst(t, s[0]);
    SortedHeadFirst(s, t[0]);
    BelowAntisymmetric(s[0], t[0]);
    SortedTail(s);
    SortedTail(t);
  }

  lemma SameHeadSameTail(s: seq<string>, t: seq<string>)
    requires s != [] && t != [] && s[0] == t[0] && s[1..] == t[1..]
    ensures s == t
  {
    assert s == [s[0]] + s[1..] && t == [t[0]] + t[1..];
  }

  /** The head of a sorted list sorts no later than any of its elements. */
  lemma SortedHeadFirst(s: seq<string>, x: string)
    requires Sorted(s) && x in multiset(s)
    ensures Below(s[0], x)
  {
    var k :| 0 <= k < |s| && s[k] == x;
    if k == 0 { BelowReflexive(x); }
  }

  /** The tail of a sorted list is sorted and holds the rest of its elements. */
  lemma SortedTail(s: seq<string>)
    requires Sorted(s) && s != []
    ensures Sorted(s[1..]) && multiset(s[1..]) == multiset(s) - multiset{s[0]}
  {
    assert s == [s[0]] + s[1..];
  }

  /** Comparing sorted copies, as synchroniseParticipants does, is comparing
      the lists as multisets: order does not matter, repeats do. */
  lemma SortEqualIff(a: seq<string>, b: seq<string>)
    ensures Sort(a) == Sort(b) <==> multiset(a) == multiset(b)
  {
    if multiset(a) == multiset(b) {
      SortSorted(a);
      SortSorted(b);
      SortedUnique(Sort(a), Sort(b));
    }
  }

  // ---------------------------------------------------------------------------
  // Repeats and multisets
  // ---------------------------------------------------------------------------

  lemma {:induction false} NoDupCount<T>(s: seq<T>, x: T)
    requires NoDup(s)
    ensures multiset(s)[x] <= 1
  {
    if s != [] {
      var p := s[..|s| - 1];
      assert NoDup(p);
      NoDupCount(p, x);
      assert s == p + [s[|s| - 1]];
      assert s[|s| - 1] !in p;
    }
  }

  lemma DupCount<T>(t: seq<T>, i: nat, j: nat)
    requires i < j < |t| && t[i] == t[j]
    ensures multiset(t)[t[i]] >= 2
  {
    assert t == t[..j] + [t[j]] + t[j + 1..];
    assert t[..j][i] == t[i];
    assert t[i] in multiset(t[..j]);
  }

  /** Reordering a list without repeats leaves it without repeats. */
  lemma NoDupPermutation<T>(s: seq<T>, t: seq<T>)
    requires NoDup(s) && multiset(s) == multiset(t)
    ensures NoDup(t)
  {
    forall i, j | 0 <= i < j < |t| ensures t[i] != t[j] {
      if t[i] == t[j] {
        DupCount(t, i, j);
        NoDupCount(s, t[i]);
      }
    }
  }

  /** For lists without repeats, comparing as multisets is comparing as sets. */
  lemma NoDupMultisetIsSet<T>(a: seq<T>, b: seq<T>)
    requires NoDup(a) && NoDup(b)
    ensures multiset(a) == multiset(b) <==> (forall y :: y in a <==> y in b)
  {
    if forall y :: y in a <==> y in b {
      forall y ensures multiset(a)[y] == multiset(b)[y] {
        NoDupCount(a, y);
        NoDupCount(b, y);
        assert y in a <==> y in multiset(a);
        assert y in b <==> y in multiset(b);
      }
      assert multiset(a) == multiset(b);
    }
    if multiset(a) == multiset(b) {
      forall y ensures y in a <==> y in b {
        assert y in a <==> y in multiset(a);
        assert y in b <==> y in multiset(b);
      }
    }
  }
}
