/** The vote ledger behind the up and down buttons of a question or an answer. Each
    (user, target) pair is in one of three states: no vote, upvoted, downvoted. A click
    inserts a record when there is none, deletes it when the same button is clicked
    again, and updates it in place when the other button is clicked; the two tallies
    are then recounted from the whole table. */
module VoteButtons {
  import opened Tables

  predicate Matches(v: Vote, user: Id, target: Target) {
    v.userId == user && v.target == target
  }

  /** The number of records of `user` on `target`. */
  function MatchCount(votes: seq<Vote>, user: Id, target: Target): (n: nat)
    ensures n <= |votes|
    ensures n == 0 <==> forall i :: 0 <= i < |votes| ==> !Matches(votes[i], user, target)
  {
    if votes == [] then 0
    else (if Matches(votes[0], user, target) then 1 else 0) + MatchCount(votes[1..], user, target)
  }

  /** The invariant of the vote table: at most one record per (user, target) pair, and
      distinct record ids. */
  ghost predicate LedgerValid(votes: seq<Vote>) {
    && (forall u, t :: MatchCount(votes, u, t) <= 1)
    && DistinctIds(votes)
  }

  predicate DistinctIds(votes: seq<Vote>) {
    forall i, j :: 0 <= i < j < |votes| ==> votes[i].id != votes[j].id
  }

  /** All record ids are below `bound`. */
  predicate IdsBelow(votes: seq<Vote>, bound: nat) {
    forall i :: 0 <= i < |votes| ==> votes[i].id < bound
  }

  function FirstMatch(votes: seq<Vote>, user: Id, target: Target): (r: Option<Vote>)
    ensures r.Some? ==> r.value in votes && Matches(r.value, user, target)
    ensures r.None? ==> MatchCount(votes, user, target) == 0
  {
    if votes == [] then None
    else if Matches(votes[0], user, target) then Some(votes[0])
    else FirstMatch(votes[1..], user, target)
  }

  /** The `maybeSingle` lookup of the user's record on the target: the record when there
      is exactly one, nothing when there is none or more than one. */
  function ExistingVote(votes: seq<Vote>, user: Id, target: Target): (r: Option<Vote>)
    ensures r.Some? <==> MatchCount(votes, user, target) == 1
    ensures r.Some? ==> r.value in votes && Matches(r.value, user, target)
  {
    if MatchCount(votes, user, target) == 1 then FirstMatch(votes, user, target) else None
  }

  /** The state of the (user, target) pair: no vote, or the kind of its record. */
  function UserVote(votes: seq<Vote>, user: Id, target: Target): Option<VoteKind> {
    match ExistingVote(votes, user, target)
    case Some(v) => Some(v.kind)
    case None => None
  }

  /** The number of records on `target` of the given kind. */
  function Tally(votes: seq<Vote>, target: Target, kind: VoteKind): (n: nat)
    ensures n <= |votes|
  {
    if votes == [] then 0
    else (if votes[0].target == target && votes[0].kind == kind then 1 else 0) + Tally(votes[1..], target, kind)
  }

  /** The records that are not of `user` on `target`, in order. */
  function Others(votes: seq<Vote>, user: Id, target: Target): seq<Vote> {
    if votes == [] then []
    else (if Matches(votes[0], user, target) then [] else [votes[0]]) + Others(votes[1..], user, target)
  }

  /** `delete().eq('id', id)`: removes every record with that id. */
  function DeleteById(votes: seq<Vote>, id: Id): seq<Vote> {
    if votes == [] then []
    else (if votes[0].id == id then [] else [votes[0]]) + DeleteById(votes[1..], id)
  }

  /** `update({ vote_type }).eq('id', id)`: sets the kind of every record with that id. */
  function UpdateKindById(votes: seq<Vote>, id: Id, kind: VoteKind): (r: seq<Vote>)
    ensures |r| == |votes|
    ensures forall i :: 0 <= i < |votes| ==> r[i] == if votes[i].id == id then votes[i].(kind := kind) else votes[i]
  {
    seq(|votes|, i requires 0 <= i < |votes| => if votes[i].id == id then votes[i].(kind := kind) else votes[i])
  }

  /** The state the pair moves to when `kind` is clicked in state `state`. */
  function NextUserVote(state: Option<VoteKind>, kind: VoteKind): (r: Option<VoteKind>)
    ensures r == None <==> state == Some(kind)
  {
    if state == Some(kind) then None else Some(kind)
  }

  /** The vote table after `user` clicks `kind` on `target`; `nextId` is the id a new
      record gets. */
  function AfterVote(votes: seq<Vote>, nextId: Id, user: Id, target: Target, kind: VoteKind): seq<Vote> {
    match ExistingVote(votes, user, target)
    case Some(v) =>
      if v.kind == kind then DeleteById(votes, v.id) else UpdateKindById(votes, v.id, kind)
    case None =>
      votes + [Vote(nextId, user, target, kind)]
  }

  // Counting over concatenations.

  lemma {:induction false} MatchCountAppend(a: seq<Vote>, b: seq<Vote>, user: Id, target: Target)
    ensures MatchCount(a + b, user, target) == MatchCount(a, user, target) + MatchCount(b, user, target)
  {
    if a == [] {
      assert a + b == b;
    } else {
      assert (a + b)[0] == a[0];
      assert (a + b)[1..] == a[1..] + b;
      MatchCountAppend(a[1..], b, user, target);
    }
  }

  lemma {:induction false} TallyAppend(a: seq<Vote>, b: seq<Vote>, target: Target, kind: VoteKind)
    ensures Tally(a + b, target, kind) == Tally(a, target, kind) + Tally(b, target, kind)
  {
    if a == [] {
      assert a + b == b;
    } else {
      assert (a + b)[0] == a[0];
      assert (a + b)[1..] == a[1..] + b;
      TallyAppend(a[1..], b, target, kind);
    }
  }

  lemma {:induction false} OthersAppend(a: seq<Vote>, b: seq<Vote>, user: Id, target: Target)
    ensures Others(a + b, user, target) == Others(a, user, target) + Others(b, user, target)
  {
    if a == [] {
      assert a + b == b;
    } else {
      assert (a + b)[0] == a[0];
      assert (a + b)[1..] == a[1..] + b;
      OthersAppend(a[1..], b, user, target);
    }
  }

  /** Splits a table around its `k`-th record. */
  lemma SplitAt(votes: seq<Vote>, k: nat, user: Id, target: Target, kind: VoteKind)
    requires k < |votes|
    ensures MatchCount(votes, user, target)
            == MatchCount(votes[..k], user, target) + MatchCount([votes[k]], user, target) + MatchCount(votes[k + 1..], user, target)
    ensures Tally(votes, target, kind)
            == Tally(votes[..k], target, kind) + Tally([votes[k]], target, kind) + Tally(votes[k + 1..], target, kind)
    ensures Others(votes, user, target)
            == Others(votes[..k], user, target) + Others([votes[k]], user, target) + Others(votes[k + 1..], user, target)
  {
    assert votes == votes[..k] + [votes[k]] + votes[k + 1..];
    MatchCountAppend(votes[..k] + [votes[k]], votes[k + 1..], user, target);
    MatchCountAppend(votes[..k], [votes[k]], user, target);
    TallyAppend(votes[..k] + [votes[k]], votes[k + 1..], target, kind);
    TallyAppend(votes[..k], [votes[k]], target, kind);
    OthersAppend(votes[..k] + [votes[k]], votes[k + 1..], user, target);
    OthersAppend(votes[..k], [votes[k]], user, target);
  }

  lemma {:induction false} DeleteByIdAppend(a: seq<Vote>, b: seq<Vote>, id: Id)
    ensures DeleteById(a + b, id) == DeleteById(a, id) + DeleteById(b, id)
  {
    if a == [] {
      assert a + b == b;
    } else {
      assert (a + b)[0] == a[0];
      assert (a + b)[1..] == a[1..] + b;
      DeleteByIdAppend(a[1..], b, id);
    }
  }

  /** With distinct ids, deleting by the id of the `k`-th record removes exactly it. */
  lemma DeleteByIdAt(votes: seq<Vote>, k: nat)
    requires k < |votes| && DistinctIds(votes)
    ensures DeleteById(votes, votes[k].id) == votes[..k] + votes[k + 1..]
  {
    var pre, suf := votes[..k], votes[k + 1..];
    assert votes == pre + [votes[k]] + suf;
    forall i | 0 <= i < |pre|
      ensures pre[i].id != votes[k].id
    {
      assert pre[i] == votes[i];
    }
    forall i | 0 <= i < |suf|
      ensures suf[i].id != votes[k].id
    {
      assert suf[i] == votes[k + 1 + i];
    }
    DeleteSplit(pre, votes[k], suf);
  }

  /** Deleting by the id of a record whose id no other record has removes that record. */
  lemma DeleteSplit(pre: seq<Vote>, v: Vote, suf: seq<Vote>)
    requires forall i :: 0 <= i < |pre| ==> pre[i].id != v.id
    requires forall i :: 0 <= i < |suf| ==> suf[i].id != v.id
    ensures DeleteById(pre + [v] + suf, v.id) == pre + suf
  {
    calc {
      DeleteById(pre + [v] + suf, v.id);
    == { DeleteByIdAppend(pre + [v], suf, v.id); }
      DeleteById(pre + [v], v.id) + DeleteById(suf, v.id);
    == { DeleteByIdAppend(pre, [v], v.id); }
      DeleteById(pre, v.id) + DeleteById([v], v.id) + DeleteById(suf, v.id);
    == { DeleteByIdAbsent(pre, v.id); DeleteByIdAbsent(suf, v.id); DeleteOne(v); }
      pre + [] + suf;
    == { assert pre + [] == pre; }
      pre + suf;
    }
  }

  lemma DeleteOne(v: Vote)
    ensures DeleteById([v], v.id) == []
  {
    assert [v][1..] == [];
  }

  lemma {:induction false} DeleteByIdAbsent(votes: seq<Vote>, id: Id)
    requires forall i :: 0 <= i < |votes| ==> votes[i].id != id
    ensures DeleteById(votes, id) == votes
  {
    if votes != [] {
      DeleteByIdAbsent(votes[1..], id);
    }
  }

  /** With distinct ids, updating by the id of the `k`-th record changes exactly it. */
  lemma UpdateKindByIdAt(votes: seq<Vote>, k: nat, kind: VoteKind)
    requires k < |votes| && DistinctIds(votes)
    ensures UpdateKindById(votes, votes[k].id, kind) == votes[..k] + [votes[k].(kind := kind)] + votes[k + 1..]
  {
    var r := UpdateKindById(votes, votes[k].id, kind);
    var s := votes[..k] + [votes[k].(kind := kind)] + votes[k + 1..];
    forall i | 0 <= i < |votes| ensures r[i] == s[i] {
      if i != k {
        assert i < k ==> votes[i].id != votes[k].id;
        assert i > k ==> votes[k].id != votes[i].id;
      }
    }
  }

  /** Where the user's record sits, when the pair is in the voted state. */
  lemma ExistingVoteIndex(votes: seq<Vote>, user: Id, target: Target) returns (k: nat)
    requires ExistingVote(votes, user, target).Some?
    ensures k < |votes| && votes[k] == ExistingVote(votes, user, target).value
    ensures MatchCount(votes[..k], user, target) == 0 && MatchCount(votes[k + 1..], user, target) == 0
  {
    var v := ExistingVote(votes, user, target).value;
    k :| 0 <= k < |votes| && votes[k] == v;
    SplitAt(votes, k, user, target, v.kind);
  }

  /** Each of the three transitions, as an edit of the table around the user's record. */
  lemma AfterVoteShape(votes: seq<Vote>, nextId: Id, user: Id, target: Target, kind: VoteKind) returns (k: nat)
    requires LedgerValid(votes)
    ensures var after := AfterVote(votes, nextId, user, target, kind);
      match ExistingVote(votes, user, target)
      case None => after == votes + [Vote(nextId, user, target, kind)]
      case Some(v) =>
        && k < |votes| && votes[k] == v
        && MatchCount(votes[..k], user, target) == 0 && MatchCount(votes[k + 1..], user, target) == 0
        && after == votes[..k] + (if v.kind == kind then [] else [v.(kind := kind)]) + votes[k + 1..]
  {
    k := 0;
    var e := ExistingVote(votes, user, target);
    if e.Some? {
      k := ExistingVoteIndex(votes, user, target);
      if e.value.kind == kind {
        DeleteByIdAt(votes, k);
        assert votes[..k] + [] + votes[k + 1..] == votes[..k] + votes[k + 1..];
      } else {
        UpdateKindByIdAt(votes, k, kind);
      }
    }
  }

  /** A click moves the pair through the three-state machine: from no vote to the clicked
      kind, from the clicked kind back to no vote, and from the other kind to the
      clicked one; the pair keeps at most one record throughout. */
  lemma {:induction false} VoteTransition(votes: seq<Vote>, nextId: Id, user: Id, target: Target, kind: VoteKind)
    requires LedgerValid(votes) && IdsBelow(votes, nextId)
    ensures var after := AfterVote(votes, nextId, user, target, kind);
      && UserVote(after, user, target) == NextUserVote(UserVote(votes, user, target), kind)
      && MatchCount(after, user, target) == (if UserVote(votes, user, target) == Some(kind) then 0 else 1)
  {
    var k := AfterVoteShape(votes, nextId, user, target, kind);
    match ExistingVote(votes, user, target)
    case None =>
      InsertTransition(votes, Vote(nextId, user, target, kind));
    case Some(v) =>
      EditTransition(votes, k, kind);
  }

  /** Appending a record of a pair that has none gives the pair that one record. */
  lemma InsertTransition(votes: seq<Vote>, nv: Vote)
    requires MatchCount(votes, nv.userId, nv.target) == 0
    ensures MatchCount(votes + [nv], nv.userId, nv.target) == 1
    ensures UserVote(votes + [nv], nv.userId, nv.target) == Some(nv.kind)
  {
    var after := votes + [nv];
    MatchCountAppend(votes, [nv], nv.userId, nv.target);
    MatchCountOne(nv, nv.userId, nv.target);
    assert after[|votes|] == nv;
  }

  /** Replacing the pair's only record, at `k`, by nothing or by the same record with
      the clicked kind moves the pair to the next state. */
  lemma EditTransition(votes: seq<Vote>, k: nat, kind: VoteKind)
    requires k < |votes|
    requires MatchCount(votes[..k], votes[k].userId, votes[k].target) == 0
    requires MatchCount(votes[k + 1..], votes[k].userId, votes[k].target) == 0
    ensures var v := votes[k];
      var mid := if v.kind == kind then [] else [v.(kind := kind)];
      var after := votes[..k] + mid + votes[k + 1..];
      && MatchCount(after, v.userId, v.target) == |mid|
      && UserVote(after, v.userId, v.target) == NextUserVote(Some(v.kind), kind)
  {
    var v := votes[k];
    var mid := if v.kind == kind then [] else [v.(kind := kind)];
    var after := votes[..k] + mid + votes[k + 1..];
    MatchCountAppend(votes[..k] + mid, votes[k + 1..], v.userId, v.target);
    MatchCountAppend(votes[..k], mid, v.userId, v.target);
    if v.kind != kind {
      MatchCountOne(v.(kind := kind), v.userId, v.target);
      assert after[k] == v.(kind := kind);
    }
  }

  lemma MatchCountOne(v: Vote, user: Id, target: Target)
    ensures MatchCount([v], user, target) == if Matches(v, user, target) then 1 else 0
  {
    assert [v][1..] == [];
  }

  lemma TallyOne(v: Vote, t: Target, k: VoteKind)
    ensures Tally([v], t, k) == if v.target == t && v.kind == k then 1 else 0
  {
    assert [v][1..] == [];
  }

  /** A click keeps the table's invariant, hands out only the fresh id, and leaves every
      record of another user or another target where it was. */
  lemma {:induction false} VoteKeepsInvariant(votes: seq<Vote>, nextId: Id, user: Id, target: Target, kind: VoteKind)
    requires LedgerValid(votes) && IdsBelow(votes, nextId)
    ensures var after := AfterVote(votes, nextId, user, target, kind);
      && LedgerValid(after)
      && IdsBelow(after, nextId + 1)
      && (ExistingVote(votes, user, target).Some? ==> IdsBelow(after, nextId))
      && Others(after, user, target) == Others(votes, user, target)
  {
    var k := AfterVoteShape(votes, nextId, user, target, kind);
    match ExistingVote(votes, user, target)
    case None =>
      InsertKeepsInvariant(votes, Vote(nextId, user, target, kind));
    case Some(v) =>
      var mid := if v.kind == kind then [] else [v.(kind := kind)];
      EditKeepsInvariant(votes, k, mid);
  }

  /** Appending a record of a pair that has none, under a fresh id. */
  lemma InsertKeepsInvariant(votes: seq<Vote>, nv: Vote)
    requires LedgerValid(votes) && IdsBelow(votes, nv.id)
    requires MatchCount(votes, nv.userId, nv.target) == 0
    ensures LedgerValid(votes + [nv]) && IdsBelow(votes + [nv], nv.id + 1)
    ensures Others(votes + [nv], nv.userId, nv.target) == Others(votes, nv.userId, nv.target)
  {
    var after := votes + [nv];
    forall u, t ensures MatchCount(after, u, t) <= 1 {
      MatchCountAppend(votes, [nv], u, t);
    }
    OthersAppend(votes, [nv], nv.userId, nv.target);
    assert Others([nv], nv.userId, nv.target) == [];
  }

  /** Replacing the pair's only record by `mid` (nothing, or the same record with another
      kind). */
  lemma EditKeepsInvariant(votes: seq<Vote>, k: nat, mid: seq<Vote>)
    requires LedgerValid(votes) && k < |votes|
    requires mid == [] || mid == [votes[k].(kind := mid[0].kind)]
    ensures var after := votes[..k] + mid + votes[k + 1..];
      && LedgerValid(after)
      && (forall n :: IdsBelow(votes, n) ==> IdsBelow(after, n))
      && Others(after, votes[k].userId, votes[k].target) == Others(votes, votes[k].userId, votes[k].target)
  {
    var after := votes[..k] + mid + votes[k + 1..];
    var v := votes[k];
    forall u, t ensures MatchCount(after, u, t) <= 1 {
      EditCount(votes, k, mid, u, t);
    }
    EditKeepsIds(votes, k, mid);
    SplitAt(votes, k, v.userId, v.target, v.kind);
    OthersAppend(votes[..k] + mid, votes[k + 1..], v.userId, v.target);
    OthersAppend(votes[..k], mid, v.userId, v.target);
    assert Others(mid, v.userId, v.target) == [] == Others([v], v.userId, v.target);
  }

  /** The edit does not add a record to any pair. */
  lemma EditCount(votes: seq<Vote>, k: nat, mid: seq<Vote>, u: Id, t: Target)
    requires k < |votes|
    requires mid == [] || mid == [votes[k].(kind := mid[0].kind)]
    ensures MatchCount(votes[..k] + mid + votes[k + 1..], u, t) <= MatchCount(votes, u, t)
  {
    var v := votes[k];
    SplitAt(votes, k, u, t, v.kind);
    MatchCountAppend(votes[..k] + mid, votes[k + 1..], u, t);
    MatchCountAppend(votes[..k], mid, u, t);
    MatchCountOne(v, u, t);
    if mid != [] {
      MatchCountOne(mid[0], u, t);
    }
  }

  /** The edit keeps record ids distinct and hands out none. */
  lemma EditKeepsIds(votes: seq<Vote>, k: nat, mid: seq<Vote>)
    requires DistinctIds(votes) && k < |votes|
    requires mid == [] || mid == [votes[k].(kind := mid[0].kind)]
    ensures DistinctIds(votes[..k] + mid + votes[k + 1..])
    ensures forall n :: IdsBelow(votes, n) ==> IdsBelow(votes[..k] + mid + votes[k + 1..], n)
  {
    var after := votes[..k] + mid + votes[k + 1..];
    forall i | 0 <= i < |after| ensures after[i].id == votes[if i < k then i else i + |votes| - |after|].id {
    }
    forall i, j | 0 <= i < j < |after| ensures after[i].id != after[j].id {
      var i' := if i < k then i else i + |votes| - |after|;
      var j' := if j < k then j else j + |votes| - |after|;
      assert after[i].id == votes[i'].id && after[j].id == votes[j'].id;
    }
  }

  /** The change a click makes to the tallies of any target: the pair's old record stops
      counting and its new record, if any, starts counting; nothing else moves. */
  lemma {:induction false} TallyAfterVote(votes: seq<Vote>, nextId: Id, user: Id, target: Target, kind: VoteKind, t: Target, k: VoteKind)
    requires LedgerValid(votes)
    ensures var before := UserVote(votes, user, target);
      var now := NextUserVote(before, kind);
      Tally(AfterVote(votes, nextId, user, target, kind), t, k) + (if t == target && before == Some(k) then 1 else 0)
      == Tally(votes, t, k) + (if t == target && now == Some(k) then 1 else 0)
  {
    var idx := AfterVoteShape(votes, nextId, user, target, kind);
    match ExistingVote(votes, user, target)
    case None =>
      TallyAppend(votes, [Vote(nextId, user, target, kind)], t, k);
      TallyOne(Vote(nextId, user, target, kind), t, k);
    case Some(v) =>
      var mid := if v.kind == kind then [] else [v.(kind := kind)];
      TallyReplace(votes, idx, mid, t, k);
      TallyOne(v, t, k);
      if mid != [] {
        TallyOne(mid[0], t, k);
      }
  }

  /** Tallies after replacing the `i`-th record by `mid`. */
  lemma TallyReplace(votes: seq<Vote>, i: nat, mid: seq<Vote>, t: Target, k: VoteKind)
    requires i < |votes|
    ensures Tally(votes[..i] + mid + votes[i + 1..], t, k) + Tally([votes[i]], t, k)
            == Tally(votes, t, k) + Tally(mid, t, k)
  {
    assert votes == votes[..i] + [votes[i]] + votes[i + 1..];
    TallyAppend(votes[..i] + [votes[i]], votes[i + 1..], t, k);
    TallyAppend(votes[..i], [votes[i]], t, k);
    TallyAppend(votes[..i] + mid, votes[i + 1..], t, k);
    TallyAppend(votes[..i], mid, t, k);
  }

  /** Clicking the same button twice from no vote restores the table exactly. */
  lemma {:induction false} ToggleRoundTrip(votes: seq<Vote>, nextId: Id, user: Id, target: Target, kind: VoteKind)
    requires LedgerValid(votes) && IdsBelow(votes, nextId)
    requires UserVote(votes, user, target) == None
    ensures AfterVote(AfterVote(votes, nextId, user, target, kind), nextId + 1, user, target, kind) == votes
  {
    var once := AfterVote(votes, nextId, user, target, kind);
    VoteTransition(votes, nextId, user, target, kind);
    VoteKeepsInvariant(votes, nextId, user, target, kind);
    assert once == votes + [Vote(nextId, user, target, kind)];
    var k := AfterVoteShape(once, nextId + 1, user, target, kind);
    assert ExistingVote(once, user, target).value.kind == kind;
    assert once[|votes|] == Vote(nextId, user, target, kind);
    assert k == |votes|;
    assert once[..k] == votes;
  }

  /** Up then down from no vote leaves exactly one record of the pair, a downvote. */
  lemma {:induction false} SwitchKeepsOneRecord(votes: seq<Vote>, nextId: Id, user: Id, target: Target)
    requires LedgerValid(votes) && IdsBelow(votes, nextId)
    requires UserVote(votes, user, target) == None
    ensures var twice := AfterVote(AfterVote(votes, nextId, user, target, Up), nextId + 1, user, target, Down);
      MatchCount(twice, user, target) == 1 && UserVote(twice, user, target) == Some(Down)
  {
    VoteTransition(votes, nextId, user, target, Up);
    VoteKeepsInvariant(votes, nextId, user, target, Up);
    var once := AfterVote(votes, nextId, user, target, Up);
    VoteTransition(once, nextId + 1, user, target, Down);
  }

  /** The vote buttons of one question or one answer, with the tallies and the current
      user's vote they display. */
  class VoteButtons {
    const target: Target
    var upvotes: nat
    var downvotes: nat
    var userVote: Option<VoteKind>

    constructor (target: Target)
      ensures this.target == target && upvotes == 0 && downvotes == 0 && userVote == None
    {
      this.target := target;
      upvotes, downvotes, userVote := 0, 0, None;
    }

    /** `fetchVotes`: recounts both tallies of the target from the whole table. */
    method FetchVotes(db: Store)
      modifies this`upvotes, this`downvotes
      ensures upvotes == Tally(db.votes, target, Up) && downvotes == Tally(db.votes, target, Down)
    {
      upvotes := Tally(db.votes, target, Up);
      downvotes := Tally(db.votes, target, Down);
    }

    /** `fetchUserVote`: shows the user's vote when a single record is found, and leaves
        the display as it was otherwise. */
    method FetchUserVote(db: Store, user: Option<Id>)
      modifies this`userVote
      ensures user.Some? && UserVote(db.votes, user.value, target).Some?
              ==> userVote == UserVote(db.votes, user.value, target)
      ensures user.None? || UserVote(db.votes, user.value, target).None? ==> userVote == old(userVote)
    {
      if user.None? {
        return;
      }
      var existing := ExistingVote(db.votes, user.value, target);
      if existing.Some? {
        userVote := Some(existing.value.kind);
      }
    }

    /** `handleVote`: a signed-out click changes nothing; otherwise the click inserts,
        deletes or updates the user's record and both tallies are recounted. */
    method HandleVote(db: Store, user: Option<Id>, kind: VoteKind)
      requires db.Valid() && LedgerValid(db.votes)
      modifies this`upvotes, this`downvotes, this`userVote, db`votes, db`nextId
      ensures db.Valid() && LedgerValid(db.votes)
      ensures user.None? ==>
              && db.votes == old(db.votes) && db.nextId == old(db.nextId)
              && userVote == old(userVote) && upvotes == old(upvotes) && downvotes == old(downvotes)
      ensures user.Some? ==>
              && db.votes == AfterVote(old(db.votes), old(db.nextId), user.value, target, kind)
              && db.nextId == (if UserVote(old(db.votes), user.value, target).None? then old(db.nextId) + 1 else old(db.nextId))
              && userVote == NextUserVote(UserVote(old(db.votes), user.value, target), kind)
              && userVote == UserVote(db.votes, user.value, target)
              && upvotes == Tally(db.votes, target, Up) && downvotes == Tally(db.votes, target, Down)
    {
      if user.None? {
        return;
      }
      var u := user.value;
      VoteTransition(db.votes, db.nextId, u, target, kind);
      VoteKeepsInvariant(db.votes, db.nextId, u, target, kind);
      var existing := ExistingVote(db.votes, u, target);
      match existing {
        case Some(v) =>
          if v.kind == kind {
            db.votes := DeleteById(db.votes, v.id);
            userVote := None;
          } else {
            db.votes := UpdateKindById(db.votes, v.id, kind);
            userVote := Some(kind);
          }
        case None =>
          db.votes := db.votes + [Vote(db.nextId, u, target, kind)];
          db.nextId := db.nextId + 1;
          userVote := Some(kind);
      }
      FetchVotes(db);
    }
  }
}
