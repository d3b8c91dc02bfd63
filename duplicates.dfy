/**
  The duplicate detector (`check_dup_object`, and `check_dup_object_group`,
  which is the same code under other names): it groups the names of one
  table whose non-empty bodies are equal, each group headed by the first of
  its names in table order.
 */
module Duplicates {
  import opened Blocks

  /** A representative name and, in table order, the other names whose body
      is line-for-line the same as the representative's. */
  datatype Group = Group(key: string, members: seq<string>)

  /** The names, in table order, of the entries other than `k` whose body
      equals `v`, provided `v` is not empty. */
  function Matches(t: Table, k: string, v: seq<string>): seq<string>
    decreases |t|
  {
    if t == [] then []
    else
      var e := t[|t| - 1];
      Matches(t[..|t| - 1], k, v) + (if v == e.body && v != [] && e.body != [] && k != e.name then [e.name] else [])
  }

  /** No entry before position `p` has the body of entry `p`. */
  ghost predicate FirstOfBody(t: Table, p: int) {
    0 <= p < |t| && forall q :: 0 <= q < p ==> t[q].body != t[p].body
  }

  /** Entry `p` heads a duplicate group: its body appears nowhere earlier,
      and at least one other entry shares it. */
  ghost predicate IsRepresentative(t: Table, p: int) {
    FirstOfBody(t, p) && Matches(t, t[p].name, t[p].body) != []
  }

  /** The group entry `p` would head. */
  function GroupAt(t: Table, p: nat): Group
    requires p < |t|
  {
    Group(t[p].name, Matches(t, t[p].name, t[p].body))
  }

  /** The groups headed by the representatives among the first `n` entries, in table order. */
  ghost function GroupsUpTo(t: Table, n: nat): seq<Group>
    requires n <= |t|
  {
    if n == 0 then []
    else GroupsUpTo(t, n - 1) + (if IsRepresentative(t, n - 1) then [GroupAt(t, n - 1)] else [])
  }

  /** The duplicate report for a whole table. */
  ghost function DuplicateGroups(t: Table): seq<Group> {
    GroupsUpTo(t, |t|)
  }

  /** `x` is in `already_found` once the outer scan has handled the entries before `i`. */
  ghost predicate Claimed(t: Table, i: nat, x: string) {
    exists p :: 0 <= p < i && p < |t| && (t[p].name == x || x in Matches(t, t[p].name, t[p].body))
  }

  /** `x` is in `already_found` once the outer scan has handled the entries
      before `i`, stated the way the scan builds the list. */
  ghost predicate InClaimed(t: Table, i: nat, x: string)
    requires i <= |t|
  {
    i > 0 && (InClaimed(t, i - 1, x) || x == t[i - 1].name || x in Matches(t, t[i - 1].name, t[i - 1].body))
  }

  /** The outer scan with its `already_found` list: an entry not yet claimed
      collects its matches, claims them and itself, and heads a group when it
      matched anything. */
  method FindDuplicates(t: Table) returns (dups: seq<Group>)
    requires DistinctNames(t)
    ensures dups == DuplicateGroups(t)
  {
    dups := [];
    var alreadyFound: seq<string> := [];
    var i := 0;
    while i < |t|
      invariant 0 <= i <= |t|
      invariant dups == GroupsUpTo(t, i)
      invariant forall x :: x in alreadyFound <==> InClaimed(t, i, x)
    {
      var k, v := t[i].name, t[i].body;
      var item: seq<string> := [];
      var claimed := k in alreadyFound;
      InClaimedIff(t, i, k);
      GroupsStep(t, i, claimed);
      if !claimed {
        var found;
        item, found := CollectMatches(t, k, v, alreadyFound);
        ClaimedAfterScan(t, i, alreadyFound, found);
        alreadyFound := found + [k];
      } else {
        ClaimedAfterSkip(t, i, alreadyFound);
      }
      if item != [] {
        dups := dups + [Group(k, item)];
      }
      i := i + 1;
    }
  }

  /** The inner scan for entry `k` with body `v`: lists, in table order, the
      other names with the same non-empty body, and adds each of them to
      `already_found` unless it is there. */
  method CollectMatches(t: Table, k: string, v: seq<string>, found: seq<string>)
    returns (item: seq<string>, found': seq<string>)
    ensures item == Matches(t, k, v)
    ensures forall x :: x in found' <==> x in found || x in item
  {
    item, found' := [], found;
    var j := 0;
    while j < |t|
      invariant 0 <= j <= |t|
      invariant item == Matches(t[..j], k, v)
      invariant forall x :: x in found' <==> x in found || x in item
    {
      var x, y := t[j].name, t[j].body;
      MatchesSnoc(t, j, k, v);
      if v == y && v != [] && y != [] {
        if k != x {
          item := item + [x];
          if x !in found' {
            found' := found' + [x];
          }
        }
      }
      j := j + 1;
    }
    assert t[..j] == t;
  }

  /** Extending the scanned prefix by one entry. */
  lemma MatchesSnoc(t: Table, j: nat, k: string, v: seq<string>)
    requires j < |t|
    ensures Matches(t[..j + 1], k, v) == Matches(t[..j], k, v) +
      (if v == t[j].body && v != [] && t[j].body != [] && k != t[j].name then [t[j].name] else [])
  {
    assert t[..j + 1][..j] == t[..j];
  }

  /** Membership in `Matches`: exactly the other names whose body is `v`, when `v` is not empty. */
  lemma {:induction false} MatchesIff(t: Table, k: string, v: seq<string>, x: string)
    ensures x in Matches(t, k, v) <==>
      v != [] && x != k && exists q :: 0 <= q < |t| && t[q].name == x && t[q].body == v
    decreases |t|
  {
    if t != [] {
      var n := |t|;
      var front := t[..n - 1];
      MatchesIff(front, k, v, x);
      if x in Matches(front, k, v) {
        var q :| 0 <= q < n - 1 && front[q].name == x && front[q].body == v;
        assert t[q] == front[q];
      } else if x in Matches(t, k, v) {
        assert t[n - 1].name == x && t[n - 1].body == v;
      }
      if q :| 0 <= q < n && t[q].name == x && t[q].body == v {
        if q < n - 1 {
          assert front[q] == t[q];
        }
      }
    }
  }

  /** The entries `Matches` lists appear in it in table order. */
  lemma {:induction false} MatchesOrdered(t: Table, k: string, v: seq<string>)
    requires DistinctNames(t)
    ensures forall a, b :: 0 <= a < b < |Matches(t, k, v)| ==>
      PositionOf(t, Matches(t, k, v)[a]) < PositionOf(t, Matches(t, k, v)[b]) < |t|
    decreases |t|
  {
    if t != [] {
      var n := |t|;
      var front := t[..n - 1];
      var m0, m := Matches(front, k, v), Matches(t, k, v);
      MatchesOrdered(front, k, v);
      assert forall q :: 0 <= q < |front| ==> front[q] == t[q];
      forall a | 0 <= a < |m0|
        ensures PositionOf(t, m0[a]) == PositionOf(front, m0[a]) < n - 1
      {
        MatchesIff(front, k, v, m0[a]);
        var q :| 0 <= q < n - 1 && front[q].name == m0[a] && front[q].body == v;
        PositionOfName(front, q);
        PositionOfName(t, q);
      }
      if m != m0 {
        assert m == m0 + [t[n - 1].name];
        PositionOfName(t, n - 1);
      }
    }
  }

  /** The entry the outer scan reaches next is already claimed exactly when
      an earlier entry has its non-empty body. */
  lemma ClaimedIff(t: Table, i: nat)
    requires DistinctNames(t)
    requires i < |t|
    ensures Claimed(t, i, t[i].name) <==> t[i].body != [] && !FirstOfBody(t, i)
  {
    var k, v := t[i].name, t[i].body;
    if Claimed(t, i, k) {
      var p :| 0 <= p < i && (t[p].name == k || k in Matches(t, t[p].name, t[p].body));
      MatchesIff(t, t[p].name, t[p].body, k);
    }
    if v != [] && !FirstOfBody(t, i) {
      var p :| 0 <= p < i && t[p].body == v;
      MatchesIff(t, t[p].name, t[p].body, k);
    }
  }

  /** Handling entry `i` claims its own name and the names it matches. */
  lemma ClaimedNext(t: Table, i: nat, x: string)
    requires i < |t|
    ensures Claimed(t, i + 1, x) <==>
      Claimed(t, i, x) || x == t[i].name || x in Matches(t, t[i].name, t[i].body)
  {
    if Claimed(t, i + 1, x) && !Claimed(t, i, x) {
      var p :| 0 <= p < i + 1 && p < |t| && (t[p].name == x || x in Matches(t, t[p].name, t[p].body));
      assert p == i;
    }
    if x == t[i].name || x in Matches(t, t[i].name, t[i].body) {
      assert Claimed(t, i + 1, x) by {
        assert 0 <= i < i + 1 && i < |t|;
      }
    }
  }

  /** Handling an entry that was already claimed claims nothing new. */
  lemma ClaimedStable(t: Table, i: nat, x: string)
    requires DistinctNames(t)
    requires i < |t|
    requires Claimed(t, i, t[i].name)
    ensures Claimed(t, i + 1, x) <==> Claimed(t, i, x)
  {
    var k, v := t[i].name, t[i].body;
    ClaimedNext(t, i, x);
    ClaimedIff(t, i);
    if x in Matches(t, k, v) {
      var p :| 0 <= p < i && t[p].body == v;
      MatchesIff(t, k, v, x);
      MatchesIff(t, t[p].name, v, x);
      assert t[p].name == x || x in Matches(t, t[p].name, t[p].body);
    }
  }

  /** `InClaimed` agrees with the closed form `Claimed`. */
  lemma {:induction false} InClaimedIff(t: Table, i: nat, x: string)
    requires i <= |t|
    ensures InClaimed(t, i, x) <==> Claimed(t, i, x)
    decreases i
  {
    if i > 0 {
      InClaimedIff(t, i - 1, x);
      ClaimedNext(t, i - 1, x);
    }
  }

  /** After a scan of entry `i`, `already_found` holds what is claimed up to `i + 1`. */
  lemma ClaimedAfterScan(t: Table, i: nat, found: seq<string>, found': seq<string>)
    requires i < |t|
    requires forall x :: x in found <==> InClaimed(t, i, x)
    requires forall x :: x in found' <==> x in found || x in Matches(t, t[i].name, t[i].body)
    ensures forall x :: x in found' + [t[i].name] <==> InClaimed(t, i + 1, x)
  {
  }

  /** Skipping an entry already claimed leaves `already_found` right for `i + 1`. */
  lemma ClaimedAfterSkip(t: Table, i: nat, found: seq<string>)
    requires DistinctNames(t)
    requires i < |t|
    requires forall x :: x in found <==> InClaimed(t, i, x)
    requires t[i].name in found
    ensures forall x :: x in found <==> InClaimed(t, i + 1, x)
  {
    forall x
      ensures InClaimed(t, i + 1, x) <==> InClaimed(t, i, x)
    {
      InClaimedIff(t, i, t[i].name);
      InClaimedIff(t, i, x);
      InClaimedIff(t, i + 1, x);
      ClaimedStable(t, i, x);
    }
  }

  /** One outer iteration: the entry heads a group exactly when it is not yet
      claimed and matches some other entry. */
  lemma GroupsStep(t: Table, i: nat, claimed: bool)
    requires DistinctNames(t)
    requires i < |t|
    requires claimed == Claimed(t, i, t[i].name)
    ensures GroupsUpTo(t, i + 1) == GroupsUpTo(t, i) +
      (if !claimed && Matches(t, t[i].name, t[i].body) != [] then [Group(t[i].name, Matches(t, t[i].name, t[i].body))] else [])
  {
    var k, v := t[i].name, t[i].body;
    ClaimedIff(t, i);
    if v == [] && Matches(t, k, v) != [] {
      MatchesIff(t, k, v, Matches(t, k, v)[0]);
    }
  }

  /** The groups among the first `n` entries: each is the group of a
      representative before `n`, every such representative has its group,
      and representatives appear in table order. */
  lemma GroupsShape(t: Table, n: nat)
    requires DistinctNames(t)
    requires n <= |t|
    ensures forall g :: 0 <= g < |GroupsUpTo(t, n)| ==>
      var p := PositionOf(t, GroupsUpTo(t, n)[g].key);
      p < n && IsRepresentative(t, p) && GroupsUpTo(t, n)[g] == GroupAt(t, p)
    ensures forall p :: 0 <= p < n && IsRepresentative(t, p) ==> GroupAt(t, p) in GroupsUpTo(t, n)
    ensures forall a, b :: 0 <= a < b < |GroupsUpTo(t, n)| ==>
      PositionOf(t, GroupsUpTo(t, n)[a].key) < PositionOf(t, GroupsUpTo(t, n)[b].key)
  {
    GroupsFrom(t, n);
    GroupsCover(t, n);
    GroupsKeyOrder(t, n);
  }

  /** Each group among the first `n` entries is the group of a representative before `n`. */
  lemma {:induction false} GroupsFrom(t: Table, n: nat)
    requires DistinctNames(t)
    requires n <= |t|
    ensures forall g :: 0 <= g < |GroupsUpTo(t, n)| ==>
      var p := PositionOf(t, GroupsUpTo(t, n)[g].key);
      p < n && IsRepresentative(t, p) && GroupsUpTo(t, n)[g] == GroupAt(t, p)
    decreases n
  {
    if n > 0 {
      GroupsFrom(t, n - 1);
      PositionOfName(t, n - 1);
    }
  }

  /** Every representative before `n` has its group among the first `n` entries' groups. */
  lemma {:induction false} GroupsCover(t: Table, n: nat)
    requires n <= |t|
    ensures forall p :: 0 <= p < n && IsRepresentative(t, p) ==> GroupAt(t, p) in GroupsUpTo(t, n)
    decreases n
  {
    if n > 0 {
      GroupsCover(t, n - 1);
    }
  }

  /** The groups among the first `n` entries come in the order of their
      representatives, all of which lie before `n`. */
  lemma {:induction false} GroupsKeyOrder(t: Table, n: nat)
    requires DistinctNames(t)
    requires n <= |t|
    ensures forall a :: 0 <= a < |GroupsUpTo(t, n)| ==> PositionOf(t, GroupsUpTo(t, n)[a].key) < n
    ensures forall a, b :: 0 <= a < b < |GroupsUpTo(t, n)| ==>
      PositionOf(t, GroupsUpTo(t, n)[a].key) < PositionOf(t, GroupsUpTo(t, n)[b].key)
    decreases n
  {
    if n > 0 {
      var r0, r := GroupsUpTo(t, n - 1), GroupsUpTo(t, n);
      GroupsKeyOrder(t, n - 1);
      if IsRepresentative(t, n - 1) {
        PositionOfName(t, n - 1);
        assert r == r0 + [GroupAt(t, n - 1)];
        assert PositionOf(t, r[|r0|].key) == n - 1;
      } else {
        assert r == r0;
      }
    }
  }

  /** Soundness: every representative is a name of the table with a
      non-empty body; its list is non-empty, omits the representative, and
      holds only names that come later in the table and have the same body. */
  lemma GroupsSound(t: Table)
    requires DistinctNames(t)
    ensures forall g :: 0 <= g < |DuplicateGroups(t)| ==>
      var grp, p := DuplicateGroups(t)[g], PositionOf(t, DuplicateGroups(t)[g].key);
      p < |t| && t[p].body != [] && grp.members != [] && grp.key !in grp.members &&
      forall x :: x in grp.members ==>
        p < PositionOf(t, x) < |t| && t[PositionOf(t, x)].body == t[p].body
  {
    var r := DuplicateGroups(t);
    GroupsShape(t, |t|);
    forall g, x | 0 <= g < |r| && x in r[g].members
      ensures var p := PositionOf(t, r[g].key);
        p < PositionOf(t, x) < |t| && t[PositionOf(t, x)].body == t[p].body && t[p].body != []
    {
      var p := PositionOf(t, r[g].key);
      MatchesIff(t, t[p].name, t[p].body, x);
      var q :| 0 <= q < |t| && t[q].name == x && t[q].body == t[p].body;
      PositionOfName(t, q);
    }
    forall g | 0 <= g < |r|
      ensures r[g].key !in r[g].members && t[PositionOf(t, r[g].key)].body != []
    {
      var p := PositionOf(t, r[g].key);
      MatchesIff(t, t[p].name, t[p].body, r[g].key);
      MatchesIff(t, t[p].name, t[p].body, r[g].members[0]);
    }
  }

  /** Disjointness: two groups never share a name, whether as representative
      or as listed duplicate. */
  lemma GroupsDisjoint(t: Table)
    requires DistinctNames(t)
    ensures forall a, b :: 0 <= a < b < |DuplicateGroups(t)| ==>
      var ga, gb := DuplicateGroups(t)[a], DuplicateGroups(t)[b];
      ga.key != gb.key && ga.key !in gb.members && gb.key !in ga.members &&
      forall x :: x in ga.members ==> x !in gb.members
  {
    var r := DuplicateGroups(t);
    GroupsShape(t, |t|);
    GroupsSound(t);
    forall a, b | 0 <= a < b < |r|
      ensures r[a].key != r[b].key && r[a].key !in r[b].members && r[b].key !in r[a].members &&
        forall x :: x in r[a].members ==> x !in r[b].members
    {
      var pa, pb := PositionOf(t, r[a].key), PositionOf(t, r[b].key);
      assert FirstOfBody(t, pb);
      assert t[pa].body != t[pb].body;
      PositionOfName(t, pa);
      PositionOfName(t, pb);
    }
  }

  /** Empty bodies are never matched: a name whose body is empty is neither
      a representative nor a listed duplicate. */
  lemma EmptyBodiesExcluded(t: Table, p: nat)
    requires DistinctNames(t)
    requires p < |t| && t[p].body == []
    ensures forall g :: 0 <= g < |DuplicateGroups(t)| ==>
      DuplicateGroups(t)[g].key != t[p].name && t[p].name !in DuplicateGroups(t)[g].members
  {
    GroupsSound(t);
    PositionOfName(t, p);
  }

  /** Every entry has a first entry with its body, at or before it. */
  lemma {:induction false} FirstOfBodyExists(t: Table, p: nat)
    requires p < |t|
    ensures exists m :: 0 <= m <= p && FirstOfBody(t, m) && t[m].body == t[p].body
    decreases p
  {
    if !FirstOfBody(t, p) {
      var q :| 0 <= q < p && t[q].body == t[p].body;
      FirstOfBodyExists(t, q);
    } else {
      assert 0 <= p <= p && FirstOfBody(t, p) && t[p].body == t[p].body;
    }
  }

  /** Completeness: whenever two entries share a non-empty body, the table's
      first entry with that body heads a group, listed in the report, that
      contains both of them. */
  lemma GroupsComplete(t: Table, p: nat, q: nat)
    requires DistinctNames(t)
    requires p < |t| && q < |t| && p != q
    requires t[p].body == t[q].body != []
    ensures exists m ::
              0 <= m < |t| && FirstOfBody(t, m) && t[m].body == t[p].body &&
              GroupAt(t, m) in DuplicateGroups(t) &&
              (t[p].name == t[m].name || t[p].name in GroupAt(t, m).members) &&
              (t[q].name == t[m].name || t[q].name in GroupAt(t, m).members)
  {
    var v := t[p].body;
    FirstOfBodyExists(t, p);
    var m :| 0 <= m <= p && FirstOfBody(t, m) && t[m].body == v;
    var o := if p != m then p else q;
    MatchesIff(t, t[m].name, v, t[o].name);
    MatchesIff(t, t[m].name, v, t[p].name);
    MatchesIff(t, t[m].name, v, t[q].name);
    assert IsRepresentative(t, m);
    GroupsCover(t, |t|);
  }

  /** Ordering: representatives appear in table order, and so does each
      group's list of duplicates. */
  lemma GroupsOrdered(t: Table)
    requires DistinctNames(t)
    ensures forall a, b :: 0 <= a < b < |DuplicateGroups(t)| ==>
      PositionOf(t, DuplicateGroups(t)[a].key) < PositionOf(t, DuplicateGroups(t)[b].key)
    ensures forall g, a, b :: 0 <= g < |DuplicateGroups(t)| && 0 <= a < b < |DuplicateGroups(t)[g].members| ==>
      PositionOf(t, DuplicateGroups(t)[g].members[a]) < PositionOf(t, DuplicateGroups(t)[g].members[b])
  {
    var r := DuplicateGroups(t);
    GroupsShape(t, |t|);
    forall g | 0 <= g < |r|
      ensures forall a, b :: 0 <= a < b < |r[g].members| ==>
        PositionOf(t, r[g].members[a]) < PositionOf(t, r[g].members[b])
    {
      var p := PositionOf(t, r[g].key);
      MatchesOrdered(t, t[p].name, t[p].body);
    }
  }

  /** `Matches` over a three-entry table, one entry at a time. */
  lemma MatchesOfThree(t: Table, k: string, v: seq<string>)
    requires |t| == 3
    ensures Matches(t, k, v) ==
      (if v == t[0].body && v != [] && k != t[0].name then [t[0].name] else []) +
      (if v == t[1].body && v != [] && k != t[1].name then [t[1].name] else []) +
      (if v == t[2].body && v != [] && k != t[2].name then [t[2].name] else [])
  {
    assert t[..0] == [];
    MatchesSnoc(t, 0, k, v);
    MatchesSnoc(t, 1, k, v);
    MatchesSnoc(t, 2, k, v);
    assert t[..3] == t;
  }

  /** Two names share a body and a third does not: one group, headed by the first. */
  lemma ScenarioPair()
    ensures DuplicateGroups([Entry("A", ["x", "y"]), Entry("B", ["x", "y"]), Entry("C", ["z"])]) == [Group("A", ["B"])]
  {
    var t := [Entry("A", ["x", "y"]), Entry("B", ["x", "y"]), Entry("C", ["z"])];
    MatchesOfThree(t, "A", ["x", "y"]);
    MatchesOfThree(t, "C", ["z"]);
    assert !FirstOfBody(t, 1) by {
      assert t[0].body == t[1].body;
    }
    assert Matches(t, "A", ["x", "y"]) == ["B"];
    assert IsRepresentative(t, 0);
    assert GroupsUpTo(t, 1) == [Group("A", ["B"])];
  }

  /** Empty bodies never match each other. */
  lemma ScenarioEmpty()
    ensures DuplicateGroups([Entry("A", []), Entry("B", [])]) == []
  {
    var t := [Entry("A", []), Entry("B", [])];
    assert t[..0] == [] && t[..2] == t;
    MatchesSnoc(t, 0, "A", []);
    MatchesSnoc(t, 1, "A", []);
    MatchesSnoc(t, 0, "B", []);
    MatchesSnoc(t, 1, "B", []);
  }

  /** Three names with one body: one group listing the other two in order. */
  lemma ScenarioTriple()
    ensures DuplicateGroups([Entry("A", ["x"]), Entry("B", ["x"]), Entry("C", ["x"])]) == [Group("A", ["B", "C"])]
  {
    var t := [Entry("A", ["x"]), Entry("B", ["x"]), Entry("C", ["x"])];
    MatchesOfThree(t, "A", ["x"]);
    assert !FirstOfBody(t, 1) by {
      assert t[0].body == t[1].body;
    }
    assert !FirstOfBody(t, 2) by {
      assert t[0].body == t[2].body;
    }
    assert Matches(t, "A", ["x"]) == ["B", "C"];
    assert IsRepresentative(t, 0);
    assert GroupsUpTo(t, 1) == [Group("A", ["B", "C"])];
  }
}
