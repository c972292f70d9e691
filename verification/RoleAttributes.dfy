/**
 The two in-place algorithms on role attribute lists, against one specification
 on sequences: keep the first occurrence of everything in `current ++ add`, then
 drop what is in `remove`.
 */
module RoleAttributes {
  import opened Wrappers

  function Elements(s: seq<string>): set<string> {
    set x | x in s
  }

  /** The first occurrence of every element that is in `keep`, in order. */
  function FirstKept(s: seq<string>, keep: set<string>): seq<string> {
    if s == [] then []
    else
      var init, last := s[..|s| - 1], s[|s| - 1];
      if last in keep && last !in init then FirstKept(init, keep) + [last] else FirstKept(init, keep)
  }

  function Patched(current: seq<string>, add: seq<string>, remove: seq<string>): seq<string> {
    FirstKept(current + add, Elements(current + add) - Elements(remove))
  }

  ghost predicate Distinct(s: seq<string>) {
    forall i, j :: 0 <= i < j < |s| ==> s[i] != s[j]
  }

  /** Where `x` first occurs in `s`. */
  function FirstIndex(s: seq<string>, x: string): (i: nat)
    requires x in s
    ensures i < |s| && s[i] == x && forall k :: 0 <= k < i ==> s[k] != x
  {
    if s[0] == x then 0 else 1 + FirstIndex(s[1..], x)
  }

  /** The elements of `r` come in the order in which they first occur in `s`. */
  ghost predicate InOrder(s: seq<string>, r: seq<string>) {
    && (forall i :: 0 <= i < |r| ==> r[i] in s)
    && (forall i, j :: 0 <= i < j < |r| ==> FirstIndex(s, r[i]) < FirstIndex(s, r[j]))
  }

  /** `r` holds exactly the elements of `keep`, once each, in the order in which
      they first occur in `s`. */
  ghost predicate IsFirstOccurrenceOrder(s: seq<string>, keep: set<string>, r: seq<string>) {
    (forall x :: x in r <==> x in s && x in keep) && InOrder(s, r)
  }

  // ---------------------------------------------------------------- the program's loops

  method PatchRoleAttributes(current: Option<seq<string>>, add: seq<string>, remove: seq<string>)
    returns (roleAttributes: seq<string>)
    ensures roleAttributes == Patched(current.GetOr([]), add, remove)
  {
    ghost var c := current.GetOr([]);
    ghost var keep := Elements(c + add) - Elements(remove);
    var roleAttributeSet := WantedRoleAttributes(current, add, remove);

    roleAttributes := [];
    if current.Some? {
      roleAttributes, roleAttributeSet :=
        EmitWanted([], current.value, keep, roleAttributes, roleAttributeSet);
      assert [] + c == c;
    }
    roleAttributes, roleAttributeSet := EmitWanted(c, add, keep, roleAttributes, roleAttributeSet);
  }

  /** The set the first three loops build: `current` and `add` inserted, `remove` deleted. */
  method WantedRoleAttributes(current: Option<seq<string>>, add: seq<string>, remove: seq<string>)
    returns (roleAttributeSet: set<string>)
    ensures roleAttributeSet == Elements(current.GetOr([]) + add) - Elements(remove)
  {
    roleAttributeSet := {};
    if current.Some? {
      for i := 0 to |current.value|
        invariant roleAttributeSet == Elements(current.value[..i])
      {
        roleAttributeSet := roleAttributeSet + {current.value[i]};
      }
      assert current.value[..|current.value|] == current.value;
    }
    ghost var c := current.GetOr([]);
    assert roleAttributeSet == Elements(c);
    for i := 0 to |add|
      invariant roleAttributeSet == Elements(c) + Elements(add[..i])
    {
      roleAttributeSet := roleAttributeSet + {add[i]};
    }
    assert add[..|add|] == add;
    for i := 0 to |remove|
      invariant roleAttributeSet == (Elements(c) + Elements(add)) - Elements(remove[..i])
    {
      roleAttributeSet := roleAttributeSet - {remove[i]};
    }
    assert remove[..|remove|] == remove;
  }

  /** An emitting loop: `values` follows `before`, which was emitted already;
      what is emitted leaves the set. */
  method EmitWanted(ghost before: seq<string>, values: seq<string>, ghost keep: set<string>,
                    emitted: seq<string>, wanted: set<string>)
    returns (emitted': seq<string>, wanted': set<string>)
    requires emitted == FirstKept(before, keep)
    requires wanted == keep - Elements(before)
    ensures emitted' == FirstKept(before + values, keep)
    ensures wanted' == keep - Elements(before + values)
  {
    emitted', wanted' := emitted, wanted;
    ghost var done := before;
    for i := 0 to |values|
      invariant done == before + values[..i]
      invariant emitted' == FirstKept(done, keep)
      invariant wanted' == keep - Elements(done)
    {
      KeepNext(done, values[i], keep);
      done := Next(before, values, i);
      if values[i] in wanted' {
        emitted' := emitted' + [values[i]];
        wanted' := wanted' - {values[i]};
      }
    }
    assert done == before + values;
  }

  function Next(before: seq<string>, values: seq<string>, i: nat): (done: seq<string>)
    requires i < |values|
    ensures done == before + values[..i] + [values[i]] == before + values[..i + 1]
  {
    before + values[..i + 1]
  }

  /** One turn of an emitting loop: `x` is emitted if it is kept and new. */
  lemma KeepNext(s: seq<string>, x: string, keep: set<string>)
    ensures FirstKept(s + [x], keep) ==
      if x in keep - Elements(s) then FirstKept(s, keep) + [x] else FirstKept(s, keep)
    ensures keep - Elements(s + [x]) ==
      if x in keep - Elements(s) then keep - Elements(s) - {x} else keep - Elements(s)
    ensures Elements(s + [x]) == Elements(s) + {x}
  {
    assert (s + [x])[..|s|] == s;
  }

  lemma NonEmptyKept(all: seq<string>, i: nat)
    requires i < |all|
    ensures all[i] in Elements(all) - Elements([""]) <==> all[i] != ""
  {
    assert all[i] in Elements(all);
    assert "" in [""];
  }

  method MergeRoleAttributes(base: seq<string>, additional: seq<string>) returns (merged: seq<string>)
    ensures merged == Patched(base, additional, [""])
  {
    var seen: set<string> := {};
    merged := [];
    var all := base + additional;
    ghost var keep := Elements(all) - Elements([""]);
    ghost var done: seq<string> := [];
    for i := 0 to |all|
      invariant done == all[..i]
      invariant seen == Elements(done) - {""}
      invariant merged == FirstKept(done, keep)
    {
      KeepNext(done, all[i], keep);
      done := done + [all[i]];
      NonEmptyKept(all, i);
      if all[i] == "" || all[i] in seen {
        continue;
      }
      seen := seen + {all[i]};
      merged := merged + [all[i]];
    }
    assert done == all;
  }

  // ---------------------------------------------------------------- what the specification means

  lemma {:induction false} FirstKeptElements(s: seq<string>, keep: set<string>)
    ensures forall x :: x in FirstKept(s, keep) <==> x in s && x in keep
  {
    if s != [] {
      FirstKeptElements(s[..|s| - 1], keep);
      assert s == s[..|s| - 1] + [s[|s| - 1]];
    }
  }

  lemma {:induction false} FirstIndexOfPrefix(s: seq<string>, n: nat, x: string)
    requires n <= |s| && x in s[..n]
    ensures x in s && FirstIndex(s, x) == FirstIndex(s[..n], x)
  {
    var j := FirstIndex(s[..n], x);
    assert s[j] == x;
    assert forall k :: 0 <= k < j ==> s[k] == s[..n][k];
  }

  lemma {:induction false} FirstKeptInOrder(s: seq<string>, keep: set<string>)
    ensures InOrder(s, FirstKept(s, keep))
  {
    if s != [] {
      var n := |s| - 1;
      FirstKeptInOrder(s[..n], keep);
      if s[n] in keep && s[n] !in s[..n] {
        LaterOccurrence(s, n, FirstKept(s[..n], keep));
      } else {
        StillInOrder(s, n, FirstKept(s[..n], keep));
      }
    }
  }

  /** What is in order in a prefix is in order. */
  lemma StillInOrder(s: seq<string>, n: nat, r: seq<string>)
    requires n <= |s| && InOrder(s[..n], r)
    ensures InOrder(s, r)
    ensures forall i :: 0 <= i < |r| ==> FirstIndex(s, r[i]) < n
  {
    forall i | 0 <= i < |r|
      ensures r[i] in s && FirstIndex(s, r[i]) == FirstIndex(s[..n], r[i]) < n
    {
      FirstIndexOfPrefix(s, n, r[i]);
    }
  }

  lemma LaterOccurrence(s: seq<string>, n: nat, r: seq<string>)
    requires |s| == n + 1 && s[n] !in s[..n] && InOrder(s[..n], r)
    ensures InOrder(s, r + [s[n]])
  {
    var more := r + [s[n]];
    StillInOrder(s, n, r);
    FirstIndexOfLast(s, n);
    forall i, j | 0 <= i < j < |more| ensures FirstIndex(s, more[i]) < FirstIndex(s, more[j]) {
      assert more[i] == r[i];
      assert j < |r| ==> more[j] == r[j];
    }
  }

  lemma FirstIndexOfLast(s: seq<string>, n: nat)
    requires |s| == n + 1 && s[n] !in s[..n]
    ensures s[n] in s && FirstIndex(s, s[n]) == n
  {
    assert forall k :: 0 <= k < n ==> s[..n][k] in s[..n] && s[..n][k] == s[k];
  }

  /** The patched list holds exactly what is in `current` or `add` and not in
      `remove`, once each, in order of first occurrence. */
  lemma PatchedMeaning(current: seq<string>, add: seq<string>, remove: seq<string>)
    ensures Distinct(Patched(current, add, remove))
    ensures Elements(Patched(current, add, remove)) == (Elements(current) + Elements(add)) - Elements(remove)
    ensures IsFirstOccurrenceOrder(current + add, Elements(current + add) - Elements(remove),
                                   Patched(current, add, remove))
  {
    var all := current + add;
    var r := Patched(current, add, remove);
    FirstKeptElements(all, Elements(all) - Elements(remove));
    FirstKeptInOrder(all, Elements(all) - Elements(remove));
    assert forall x :: x in r <==> x in all && x !in remove;
    assert Elements(all) == Elements(current) + Elements(add);
  }

  /** Nothing else has that meaning. */
  lemma {:induction false} FirstOccurrenceOrderIsUnique(s: seq<string>, keep: set<string>, r: seq<string>,
                                                        q: seq<string>)
    requires IsFirstOccurrenceOrder(s, keep, r) && IsFirstOccurrenceOrder(s, keep, q)
    ensures r == q
    decreases |r|
  {
    EmptyTogether(s, keep, r, q);
    if r != [] {
      SameLast(s, keep, r, q);
      WithoutLast(s, keep, r);
      WithoutLast(s, keep, q);
      FirstOccurrenceOrderIsUnique(s, keep - {r[|r| - 1]}, r[..|r| - 1], q[..|q| - 1]);
      SplitLast(r);
      SplitLast(q);
    }
  }

  lemma EmptyTogether(s: seq<string>, keep: set<string>, r: seq<string>, q: seq<string>)
    requires IsFirstOccurrenceOrder(s, keep, r) && IsFirstOccurrenceOrder(s, keep, q)
    ensures r == [] <==> q == []
  {
    if r != [] {
      assert r[0] in r;
    }
    if q != [] {
      assert q[0] in q;
    }
  }

  lemma SplitLast(r: seq<string>)
    requires r != []
    ensures r == r[..|r| - 1] + [r[|r| - 1]]
  {
  }

  lemma SameLast(s: seq<string>, keep: set<string>, r: seq<string>, q: seq<string>)
    requires r != [] && q != []
    requires IsFirstOccurrenceOrder(s, keep, r) && IsFirstOccurrenceOrder(s, keep, q)
    ensures r[|r| - 1] == q[|q| - 1]
  {
    var x, y := r[|r| - 1], q[|q| - 1];
    assert x in r && y in q;
    LastComesLast(s, r, y);
    LastComesLast(s, q, x);
    assert s[FirstIndex(s, x)] == x && s[FirstIndex(s, y)] == y;
  }

  lemma LastComesLast(s: seq<string>, r: seq<string>, x: string)
    requires InOrder(s, r) && x in r
    ensures x in s && r[|r| - 1] in s && FirstIndex(s, x) <= FirstIndex(s, r[|r| - 1])
  {
    var i :| 0 <= i < |r| && r[i] == x;
    if i < |r| - 1 {
      assert FirstIndex(s, r[i]) < FirstIndex(s, r[|r| - 1]);
    }
  }

  lemma WithoutLast(s: seq<string>, keep: set<string>, r: seq<string>)
    requires r != [] && IsFirstOccurrenceOrder(s, keep, r)
    ensures IsFirstOccurrenceOrder(s, keep - {r[|r| - 1]}, r[..|r| - 1])
  {
    LastIsOnce(s, r);
    InOrderPrefix(s, r, |r| - 1);
  }

  lemma LastIsOnce(s: seq<string>, r: seq<string>)
    requires r != [] && InOrder(s, r)
    ensures forall y :: y in r[..|r| - 1] <==> y in r && y != r[|r| - 1]
  {
    var n := |r| - 1;
    assert forall i :: 0 <= i < n ==> FirstIndex(s, r[i]) < FirstIndex(s, r[n]);
    assert forall i :: 0 <= i < n ==> r[..n][i] == r[i] != r[n];
    assert r == r[..n] + [r[n]];
  }

  lemma InOrderPrefix(s: seq<string>, r: seq<string>, n: nat)
    requires n <= |r| && InOrder(s, r)
    ensures InOrder(s, r[..n])
  {
  }

  // ---------------------------------------------------------------- patching twice

  /** Patching again with the same lists changes nothing, order included. */
  lemma PatchIsIdempotent(current: seq<string>, add: seq<string>, remove: seq<string>)
    ensures Patched(Patched(current, add, remove), add, remove) == Patched(current, add, remove)
  {
    var p := Patched(current, add, remove);
    PatchedMeaning(current, add, remove);
    var keep := Elements(p + add) - Elements(remove);
    assert forall x :: x in add && x !in remove ==> x in Elements(p);
    FirstKeptElements(p + add, keep);
    FirstKeptInOrder(p + add, keep);
    assert IsFirstOccurrenceOrder(p + add, keep, p) by {
      forall i, j | 0 <= i < j < |p| ensures FirstIndex(p + add, p[i]) < FirstIndex(p + add, p[j]) {
        IndexInDistinct(p, add, i);
        IndexInDistinct(p, add, j);
      }
      assert forall x :: x in p ==> x in Elements(p);
    }
    FirstOccurrenceOrderIsUnique(p + add, keep, Patched(p, add, remove), p);
  }

  lemma IndexInDistinct(p: seq<string>, rest: seq<string>, i: nat)
    requires Distinct(p) && i < |p|
    ensures p[i] in p + rest && FirstIndex(p + rest, p[i]) == i
  {
    assert (p + rest)[i] == p[i];
    assert forall j :: 0 <= j < i ==> (p + rest)[j] == p[j];
  }

  /** What two patches leave: the later one wins where they disagree. */
  lemma TwoPatches(current: seq<string>, a1: seq<string>, r1: seq<string>, a2: seq<string>, r2: seq<string>)
    ensures Elements(Patched(Patched(current, a1, r1), a2, r2)) ==
      (Elements(current) + Elements(a1) + Elements(a2)) - (Elements(r2) + (Elements(r1) - Elements(a2)))
  {
    PatchedMeaning(current, a1, r1);
    PatchedMeaning(Patched(current, a1, r1), a2, r2);
  }
}
