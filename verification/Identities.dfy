/**
 The identities of the controller, in controller order, and the rows of
 `managed_identities`.
 */
module Identities {
  import opened Wrappers

  datatype Identity = Identity(id: string, name: string, externalId: Option<string>, roleAttributes: seq<string>)

  datatype Row = Row(zitiIdentityId: string, identityId: string, identityType: int, zitiServiceId: Option<string>)

  type Table = map<string, Row> // managed_identities, by primary key

  const TYPE_RUNNER := 2
  const TYPE_APP := 5

  // ---------------------------------------------------------------- identities in controller order

  predicate Holds(x: Identity, externalId: string) {
    x.externalId == Some(externalId)
  }

  function Holders(s: seq<Identity>, externalId: string): seq<Identity> {
    if s == [] then []
    else Holders(s[..|s| - 1], externalId) + if Holds(s[|s| - 1], externalId) then [s[|s| - 1]] else []
  }

  function Others(s: seq<Identity>, externalId: string): seq<Identity> {
    if s == [] then []
    else Others(s[..|s| - 1], externalId) + if Holds(s[|s| - 1], externalId) then [] else [s[|s| - 1]]
  }

  function Without(s: seq<Identity>, ids: set<string>): seq<Identity> {
    if s == [] then []
    else Without(s[..|s| - 1], ids) + if s[|s| - 1].id in ids then [] else [s[|s| - 1]]
  }

  function IdsOf(s: seq<Identity>): seq<string> {
    if s == [] then [] else IdsOf(s[..|s| - 1]) + [s[|s| - 1].id]
  }

  ghost predicate DistinctIds(s: seq<Identity>) {
    forall i, j :: 0 <= i < j < |s| ==> s[i].id != s[j].id
  }

  function HolderIds(s: seq<Identity>, externalId: string): set<string> {
    set i | 0 <= i < |s| && Holds(s[i], externalId) :: s[i].id
  }

  lemma {:induction false} WithoutTwice(s: seq<Identity>, a: set<string>, b: set<string>)
    ensures Without(Without(s, a), b) == Without(s, a + b)
  {
    if s != [] {
      var n := |s| - 1;
      WithoutTwice(s[..n], a, b);
      var w := Without(s[..n], a);
      if s[n].id !in a {
        assert (w + [s[n]])[..|w|] == w;
      } else {
        assert w + [] == w;
      }
    }
  }

  lemma {:induction false} WithoutHolders(s: seq<Identity>, externalId: string, ids: set<string>)
    requires forall i :: 0 <= i < |s| ==> (s[i].id in ids <==> Holds(s[i], externalId))
    ensures Without(s, ids) == Others(s, externalId)
  {
    if s != [] {
      WithoutHolders(s[..|s| - 1], externalId, ids);
    }
  }

  lemma {:induction false} OthersWithout(s: seq<Identity>, externalId: string, ids: set<string>)
    requires forall i :: 0 <= i < |s| && s[i].id in ids ==> Holds(s[i], externalId)
    ensures Others(Without(s, ids), externalId) == Others(s, externalId)
  {
    if s != [] {
      var n := |s| - 1;
      OthersWithout(s[..n], externalId, ids);
      var w := Without(s[..n], ids);
      if s[n].id !in ids {
        assert (w + [s[n]])[..|w|] == w;
      } else {
        assert w + [] == w;
      }
    }
  }

  lemma {:induction false} WithoutMembers(s: seq<Identity>, ids: set<string>)
    ensures forall x :: x in Without(s, ids) <==> x in s && x.id !in ids
    ensures DistinctIds(s) ==> DistinctIds(Without(s, ids))
  {
    if s != [] {
      WithoutMembers(s[..|s| - 1], ids);
      assert s == s[..|s| - 1] + [s[|s| - 1]];
    }
  }

  lemma {:induction false} HoldersMembers(s: seq<Identity>, externalId: string)
    ensures forall x :: x in Holders(s, externalId) <==> x in s && Holds(x, externalId)
    ensures forall x :: x in Others(s, externalId) <==> x in s && !Holds(x, externalId)
    ensures |IdsOf(Holders(s, externalId))| == |Holders(s, externalId)|
  {
    IdsOfMembers(Holders(s, externalId));
    if s != [] {
      HoldersMembers(s[..|s| - 1], externalId);
      assert s == s[..|s| - 1] + [s[|s| - 1]];
    }
  }

  lemma {:induction false} IdsOfMembers(s: seq<Identity>)
    ensures |IdsOf(s)| == |s|
    ensures forall i :: 0 <= i < |s| ==> IdsOf(s)[i] == s[i].id
  {
    if s != [] {
      IdsOfMembers(s[..|s| - 1]);
    }
  }

  lemma {:induction false} OthersTwice(s: seq<Identity>, externalId: string)
    ensures Others(Others(s, externalId), externalId) == Others(s, externalId)
    ensures Holders(Others(s, externalId), externalId) == []
  {
    if s != [] {
      var n := |s| - 1;
      OthersTwice(s[..n], externalId);
      var o := Others(s[..n], externalId);
      if !Holds(s[n], externalId) {
        assert (o + [s[n]])[..|o|] == o;
      } else {
        assert o + [] == o;
      }
    }
  }

  // ---------------------------------------------------------------- removing holders one by one

  ghost function First(ids: seq<string>, n: nat): set<string>
    requires n <= |ids|
  {
    set k | 0 <= k < n :: ids[k]
  }

  lemma HolderIdsListed(s: seq<Identity>, externalId: string)
    ensures
      var ids := IdsOf(Holders(s, externalId));
      First(ids, |ids|) == HolderIds(s, externalId)
  {
    var h := Holders(s, externalId);
    var ids := IdsOf(h);
    HoldersMembers(s, externalId);
    IdsOfMembers(h);
    forall id | id in HolderIds(s, externalId) ensures id in ids {
      var i :| 0 <= i < |s| && Holds(s[i], externalId) && s[i].id == id;
      assert s[i] in h;
      var k :| 0 <= k < |h| && h[k] == s[i];
      assert ids[k] == id;
    }
    forall k | 0 <= k < |ids| ensures ids[k] in HolderIds(s, externalId) {
      assert h[k] in h && h[k] in s;
      var i :| 0 <= i < |s| && s[i] == h[k];
    }
  }

  lemma OnlyHoldersGone(s: seq<Identity>, externalId: string, ids: set<string>)
    requires DistinctIds(s) && ids <= HolderIds(s, externalId)
    ensures Others(Without(s, ids), externalId) == Others(s, externalId)
    ensures forall x :: x in Without(s, ids) ==> x in s
    ensures ids == HolderIds(s, externalId) ==>
      forall i :: 0 <= i < |s| ==> (s[i].id in ids <==> Holds(s[i], externalId))
  {
    forall i | 0 <= i < |s| && s[i].id in ids ensures Holds(s[i], externalId) {
      var k :| 0 <= k < |s| && Holds(s[k], externalId) && s[k].id == s[i].id;
      assert k == i;
    }
    OthersWithout(s, externalId, ids);
    WithoutMembers(s, ids);
  }

  lemma NextDeleted(s: seq<Identity>, ids: seq<string>, i: nat)
    requires i < |ids|
    ensures Without(Without(s, First(ids, i)), {ids[i]}) == Without(s, First(ids, i + 1))
  {
    assert First(ids, i + 1) == First(ids, i) + {ids[i]};
    WithoutTwice(s, First(ids, i), {ids[i]});
  }

  /** With `n` of its holders deleted, an external id has lost only holders; with
      all of them, exactly the others are left. */
  lemma PartlyDeleted(s: seq<Identity>, externalId: string, ids: seq<string>, n: nat)
    requires DistinctIds(s) && n <= |ids| && First(ids, |ids|) == HolderIds(s, externalId)
    ensures Others(Without(s, First(ids, n)), externalId) == Others(s, externalId)
    ensures forall x :: x in Without(s, First(ids, n)) ==> x in s
    ensures n == |ids| ==> Without(s, First(ids, n)) == Others(s, externalId)
  {
    OnlyHoldersGone(s, externalId, First(ids, n));
    if n == |ids| {
      WithoutHolders(s, externalId, First(ids, n));
    }
  }

  lemma WithoutLast(s: seq<Identity>, x: Identity)
    requires forall i :: 0 <= i < |s| ==> s[i].id != x.id
    ensures Without(s + [x], {x.id}) == s
  {
    assert (s + [x])[..|s|] == s;
    WithoutNone(s, {x.id});
  }

  lemma {:induction false} WithoutNone(s: seq<Identity>, ids: set<string>)
    requires forall i :: 0 <= i < |s| ==> s[i].id !in ids
    ensures Without(s, ids) == s
  {
    if s != [] {
      WithoutNone(s[..|s| - 1], ids);
    }
  }

  lemma AppendHolder(s: seq<Identity>, x: Identity, externalId: string)
    requires Holds(x, externalId)
    ensures Holders(s + [x], externalId) == Holders(s, externalId) + [x]
    ensures Others(s + [x], externalId) == Others(s, externalId)
  {
    assert (s + [x])[..|s|] == s;
  }
}
