/**
 Declarative reconciliation of grants (internal/store/grants.go and internal/store/ci_grants.go).

 Both tables are reconciled by the same algorithm, so it is modelled once, for grants that consist of a
 condition (what identifies a grant) and terms (what an apply may change). The database is a value;
 a transaction works on a copy and commits by assigning it back. Rows are numbered in order of
 creation, which stands for ORDER BY created_at, id.
 */
module Reconcile {
  type Id = nat

  datatype Grant<C, V> = Grant(cond: C, terms: V)

  type Rows<C, V> = map<Id, Grant<C, V>>

  datatype Event<C, V> =
    | Created(actor: string, id: Id, grant: Grant<C, V>)
    | Updated(actor: string, id: Id, grant: Grant<C, V>)
    | Deleted(actor: string, id: Id, grant: Grant<C, V>)

  /** `groups` are the groups that exist; CI grants have none. */
  datatype Db<C, V, G> = Db(rows: Rows<C, V>, nextId: Id, groups: set<G>, audit: seq<Event<C, V>>)

  datatype Counts = Counts(created: nat, updated: nat, deleted: nat, kept: nat)

  /* ---------------------------------------------------------------- single changes and their audit */

  function Redo<C, V>(rows: Rows<C, V>, e: Event<C, V>): Rows<C, V> {
    if e.Deleted? then rows - {e.id} else rows[e.id := e.grant]
  }

  /** Rebuilds the table from the audit trail alone. */
  function Replay<C, V>(audit: seq<Event<C, V>>): Rows<C, V> {
    if audit == [] then map[] else Redo(Replay(audit[..|audit| - 1]), audit[|audit| - 1])
  }

  function CreateTx<C, V, G>(db: Db<C, V, G>, actor: string, g: Grant<C, V>): Db<C, V, G> {
    db.(rows := db.rows[db.nextId := g], nextId := db.nextId + 1,
        audit := db.audit + [Created(actor, db.nextId, g)])
  }

  function UpdateTx<C, V, G>(db: Db<C, V, G>, actor: string, id: Id, g: Grant<C, V>): Db<C, V, G> {
    db.(rows := db.rows[id := g], audit := db.audit + [Updated(actor, id, g)])
  }

  function DeleteTx<C, V, G>(db: Db<C, V, G>, actor: string, id: Id): Db<C, V, G>
    requires id in db.rows
  {
    db.(rows := db.rows - {id}, audit := db.audit + [Deleted(actor, id, db.rows[id])])
  }

  /**
   An event that fits the table it is about: creations have a new id, updates and deletions an existing
   one, and a deletion shows the last contents.
   */
  predicate EventFits<C(==), V(==)>(rows: Rows<C, V>, e: Event<C, V>) {
    && (e.Created? <==> e.id !in rows)
    && (e.Deleted? && e.id in rows ==> rows[e.id] == e.grant)
  }

  /** Every event of the trail fits the table that the events before it make up. */
  predicate Chronicle<C(==), V(==)>(audit: seq<Event<C, V>>) {
    audit == [] ||
    (var before := audit[..|audit| - 1]; Chronicle(before) && EventFits(Replay(before), audit[|audit| - 1]))
  }

  lemma {:induction false} EveryEventFits<C, V>(audit: seq<Event<C, V>>, i: nat)
    requires Chronicle(audit) && i < |audit|
    ensures EventFits(Replay(audit[..i]), audit[i])
  {
    if i < |audit| - 1 {
      var before := audit[..|audit| - 1];
      EveryEventFits(before, i);
      assert before[..i] == audit[..i];
    }
  }

  lemma AllEventsFit<C, V>(audit: seq<Event<C, V>>)
    requires Chronicle(audit)
    ensures forall i :: 0 <= i < |audit| ==> EventFits(Replay(audit[..i]), audit[i])
  {
    forall i | 0 <= i < |audit|
      ensures EventFits(Replay(audit[..i]), audit[i])
    {
      EveryEventFits(audit, i);
    }
  }

  /** The trail goes on behind what it was, with events of this actor. */
  predicate Extends<C(==), V(==)>(was: seq<Event<C, V>>, audit: seq<Event<C, V>>, actor: string) {
    was <= audit && forall i :: |was| <= i < |audit| ==> audit[i].actor == actor
  }

  lemma ExtendsFurther<C, V>(
    a: seq<Event<C, V>>, b: seq<Event<C, V>>, c: seq<Event<C, V>>, actor: string)
    requires Extends(a, b, actor) && Extends(b, c, actor)
    ensures Extends(a, c, actor)
  {
  }

  /** What every transaction keeps: fresh ids, and an audit trail that tells the whole story. */
  ghost predicate Audited<C, V, G>(db: Db<C, V, G>) {
    && (forall id :: id in db.rows ==> id < db.nextId)
    && Replay(db.audit) == db.rows && Chronicle(db.audit)
  }

  lemma ReplayOneMore<C, V>(audit: seq<Event<C, V>>, e: Event<C, V>)
    ensures Replay(audit + [e]) == Redo(Replay(audit), e)
    ensures Chronicle(audit + [e]) <==> Chronicle(audit) && EventFits(Replay(audit), e)
    ensures Extends(audit, audit + [e], e.actor)
  {
    assert (audit + [e])[..|audit|] == audit;
  }

  lemma ChangesAudited<C, V, G>(db: Db<C, V, G>, actor: string, id: Id, g: Grant<C, V>)
    requires Audited(db)
    ensures Audited(CreateTx(db, actor, g)) && Extends(db.audit, CreateTx(db, actor, g).audit, actor)
    ensures id in db.rows ==> Audited(UpdateTx(db, actor, id, g)) && Audited(DeleteTx(db, actor, id))
    ensures id in db.rows ==> Extends(db.audit, UpdateTx(db, actor, id, g).audit, actor)
                              && Extends(db.audit, DeleteTx(db, actor, id).audit, actor)
  {
    ReplayOneMore(db.audit, Created(actor, db.nextId, g));
    if id in db.rows {
      ReplayOneMore(db.audit, Updated(actor, id, g));
      ReplayOneMore(db.audit, Deleted(actor, id, db.rows[id]));
    }
  }

  /* ---------------------------------------------------------------- grouping by key */

  /** The rows with a reconciliation key, oldest first. */
  function IdsWithKey<C, V>(rows: Rows<C, V>, key: C -> string, k: string, n: Id): (r: seq<Id>)
    ensures forall id :: id in r <==> id < n && id in rows && key(rows[id].cond) == k
    ensures forall i, j :: 0 <= i < j < |r| ==> r[i] < r[j]
  {
    if n == 0 then []
    else
      var older := IdsWithKey(rows, key, k, n - 1);
      assert forall i :: 0 <= i < |older| ==> older[i] in older;
      older + (if n - 1 in rows && key(rows[n - 1].cond) == k then [n - 1] else [])
  }

  /** The groups of rows whose key was not handled yet. */
  ghost predicate Grouped<C, V>(
    groups: map<string, seq<Id>>, rows: Rows<C, V>, key: C -> string, n: Id, handled: set<string>)
  {
    forall k :: if k in handled || IdsWithKey(rows, key, k, n) == [] then k !in groups
                else k in groups && groups[k] == IdsWithKey(rows, key, k, n)
  }

  /** A row's id goes to the end of its group. */
  function Collected(groups: map<string, seq<Id>>, k: string, id: Id): map<string, seq<Id>> {
    groups[k := (if k in groups then groups[k] else []) + [id]]
  }

  method GrantsByKey<C, V>(rows: Rows<C, V>, key: C -> string, n: Id) returns (groups: map<string, seq<Id>>)
    ensures Grouped(groups, rows, key, n, {})
  {
    groups := map[];
    for id := 0 to n
      invariant Grouped(groups, rows, key, id, {})
    {
      if id in rows {
        GroupedCollect(groups, rows, key, id);
        groups := Collected(groups, key(rows[id].cond), id);
      } else {
        GroupedSkip(groups, rows, key, id);
      }
    }
  }

  lemma GroupedSkip<C, V>(groups: map<string, seq<Id>>, rows: Rows<C, V>, key: C -> string, id: Id)
    requires Grouped(groups, rows, key, id, {}) && id !in rows
    ensures Grouped(groups, rows, key, id + 1, {})
  {
    forall k
      ensures IdsWithKey(rows, key, k, id + 1) == IdsWithKey(rows, key, k, id)
    {
      var older := IdsWithKey(rows, key, k, id);
      assert older + [] == older;
    }
  }

  lemma GroupedCollect<C, V>(groups: map<string, seq<Id>>, rows: Rows<C, V>, key: C -> string, id: Id)
    requires Grouped(groups, rows, key, id, {}) && id in rows
    ensures Grouped(Collected(groups, key(rows[id].cond), id), rows, key, id + 1, {})
  {
    var after := Collected(groups, key(rows[id].cond), id);
    forall k
      ensures if IdsWithKey(rows, key, k, id + 1) == [] then k !in after
              else k in after && after[k] == IdsWithKey(rows, key, k, id + 1)
    {
      var older, now := IdsWithKey(rows, key, k, id), IdsWithKey(rows, key, k, id + 1);
      assert now == older + (if key(rows[id].cond) == k then [id] else []);
      assert older + [] == older && [] + [id] == [id];
    }
  }

  function Elements(s: seq<Id>): set<Id> {
    set x | x in s
  }

  lemma {:induction false} AscendingIsDistinct(s: seq<Id>)
    requires forall i, j :: 0 <= i < j < |s| ==> s[i] < s[j]
    ensures |Elements(s)| == |s|
  {
    if s != [] {
      var rest, last := s[..|s| - 1], s[|s| - 1];
      AscendingIsDistinct(rest);
      assert s == rest + [last];
      assert Elements(s) == Elements(rest) + {last};
      assert last !in rest;
    }
  }

  /* ---------------------------------------------------------------- progress of an apply */

  /** The old rows whose key was handled. */
  function Settled<C, V>(was: Rows<C, V>, key: C -> string, handled: set<string>): set<Id> {
    set id | id in was.Keys && key(was[id].cond) in handled
  }

  lemma SettledGrows<C, V>(was: Rows<C, V>, key: C -> string, handled: set<string>, k: string, n: Id)
    requires k !in handled && forall id :: id in was ==> id < n
    ensures |Settled(was, key, handled + {k})| == |Settled(was, key, handled)| + |IdsWithKey(was, key, k, n)|
  {
    var ids := IdsWithKey(was, key, k, n);
    AscendingIsDistinct(ids);
    var before, after, added := Settled(was, key, handled), Settled(was, key, handled + {k}), Elements(ids);
    assert after == before + added by {
      forall id
        ensures id in after <==> id in before || id in added
      {
      }
    }
    assert before !! added;
  }

  /** The ids of the rows that stand for the specs, and the untouched rows of keys not handled yet. */
  ghost predicate Progress<C, V>(
    was: Rows<C, V>, rows: Rows<C, V>, key: C -> string, handled: set<string>,
    specs: seq<Grant<C, V>>, placed: seq<Id>)
  {
    && |placed| == |specs|
    && (forall j :: 0 <= j < |specs| ==>
          placed[j] in rows && rows[placed[j]] == specs[j] && key(specs[j].cond) in handled)
    && (forall id :: id in rows ==> id in placed || (id in was && key(was[id].cond) !in handled))
    && (forall id :: id in was && key(was[id].cond) !in handled ==>
          id in rows && rows[id] == was[id] && id !in placed)
  }

  /** The key of a condition the table can hold determines it: no other condition has that key. */
  ghost predicate Lawful<C(!new)>(key: C -> string, storable: C -> bool) {
    forall c, c' :: storable(c) && key(c) == key(c') ==> c == c'
  }

  /** The table after one spec was applied to the candidates of its key. */
  function AfterSpec<C, V>(rows: Rows<C, V>, nextId: Id, spec: Grant<C, V>, candidates: seq<Id>): Rows<C, V>
    requires forall id :: id in candidates ==> id in rows
  {
    if candidates == [] then rows[nextId := spec]
    else
      var kept := candidates[0];
      assert kept in candidates;
      (rows - Elements(candidates[1..]))[kept := rows[kept].(terms := spec.terms)]
  }

  function PlaceOf(nextId: Id, candidates: seq<Id>): Id {
    if candidates == [] then nextId else candidates[0]
  }

  /** The candidates of a key that was not handled are still in the table, unchanged. */
  lemma CandidatesUntouched<C, V>(
    was: Rows<C, V>, rows: Rows<C, V>, key: C -> string, handled: set<string>,
    specs: seq<Grant<C, V>>, placed: seq<Id>, k: string, n: Id)
    requires Progress(was, rows, key, handled, specs, placed) && k !in handled
    ensures forall id :: id in IdsWithKey(was, key, k, n) ==> id in rows && rows[id] == was[id] && id !in placed
  {
  }

  /** A new row for the spec. */
  lemma CreationMakesProgress<C, V>(
    was: Rows<C, V>, rows: Rows<C, V>, key: C -> string, handled: set<string>,
    specs: seq<Grant<C, V>>, placed: seq<Id>, spec: Grant<C, V>, n: Id, nextId: Id)
    requires forall id :: id in was ==> id < n
    requires Progress(was, rows, key, handled, specs, placed)
    requires key(spec.cond) !in handled && IdsWithKey(was, key, key(spec.cond), n) == []
    requires nextId !in rows && nextId >= n
    ensures Progress(was, rows[nextId := spec], key, handled + {key(spec.cond)}, specs + [spec], placed + [nextId])
  {
    var k := key(spec.cond);
    NoRowsWithKey(was, key, k, n);
    NewRowIsProgress(was, rows, key, handled, specs, placed, spec, nextId);
  }

  lemma NoRowsWithKey<C, V>(was: Rows<C, V>, key: C -> string, k: string, n: Id)
    requires (forall id :: id in was ==> id < n) && IdsWithKey(was, key, k, n) == []
    ensures forall id :: id in was ==> key(was[id].cond) != k
  {
    forall id | id in was
      ensures key(was[id].cond) != k
    {
      assert id in IdsWithKey(was, key, k, n) <==> key(was[id].cond) == k;
    }
  }

  lemma NewRowIsProgress<C, V>(
    was: Rows<C, V>, rows: Rows<C, V>, key: C -> string, handled: set<string>,
    specs: seq<Grant<C, V>>, placed: seq<Id>, spec: Grant<C, V>, nextId: Id)
    requires Progress(was, rows, key, handled, specs, placed)
    requires nextId !in rows && nextId !in was
    requires forall id :: id in was ==> key(was[id].cond) != key(spec.cond)
    ensures Progress(was, rows[nextId := spec], key, handled + {key(spec.cond)}, specs + [spec], placed + [nextId])
  {
    var rows', placed', specs' := rows[nextId := spec], placed + [nextId], specs + [spec];
    forall j | 0 <= j < |specs'|
      ensures placed'[j] in rows' && rows'[placed'[j]] == specs'[j]
      ensures key(specs'[j].cond) in handled + {key(spec.cond)}
    {
      if j < |specs| {
        assert placed'[j] == placed[j] && specs'[j] == specs[j];
      }
    }
    assert forall id :: id in placed' <==> id in placed || id == nextId;
  }

  /** The table after an update, row by row. */
  lemma UpdatedRows<C, V>(rows: Rows<C, V>, n: Id, spec: Grant<C, V>, candidates: seq<Id>)
    requires candidates != [] && forall id :: id in candidates ==> id in rows
    requires candidates[0] !in candidates[1..] && rows[candidates[0]].cond == spec.cond
    ensures
      var after := AfterSpec(rows, n, spec, candidates);
      && (forall id :: id in after <==> id == candidates[0] || (id in rows && id !in candidates))
      && after[candidates[0]] == spec
      && forall id :: id in after && id != candidates[0] ==> after[id] == rows[id]
  {
    assert candidates[0] in candidates;
    assert forall id :: id in candidates <==> id == candidates[0] || id in candidates[1..];
  }

  /** The oldest row takes the terms of the spec, the other rows of its key go. */
  lemma UpdateMakesProgress<C, V>(
    was: Rows<C, V>, rows: Rows<C, V>, key: C -> string, handled: set<string>,
    specs: seq<Grant<C, V>>, placed: seq<Id>, spec: Grant<C, V>, candidates: seq<Id>, n: Id)
    requires forall id :: id in was ==> id < n
    requires Progress(was, rows, key, handled, specs, placed)
    requires key(spec.cond) !in handled && candidates == IdsWithKey(was, key, key(spec.cond), n) != []
    requires candidates[0] in was && was[candidates[0]].cond == spec.cond
    ensures forall id :: id in candidates ==> id in rows
    ensures Progress(was, AfterSpec(rows, n, spec, candidates), key, handled + {key(spec.cond)},
                     specs + [spec], placed + [candidates[0]])
  {
    CandidatesUntouched(was, rows, key, handled, specs, placed, key(spec.cond), n);
    assert candidates[0] in candidates && candidates[0] !in candidates[1..];
    UpdatedRows(rows, n, spec, candidates);
    assert forall id :: id in was ==> (id in candidates <==> key(was[id].cond) == key(spec.cond));
    ReplacedIsProgress(was, rows, AfterSpec(rows, n, spec, candidates), key, handled, specs, placed, spec, candidates);
  }

  lemma ReplacedIsProgress<C, V>(
    was: Rows<C, V>, rows: Rows<C, V>, after: Rows<C, V>, key: C -> string, handled: set<string>,
    specs: seq<Grant<C, V>>, placed: seq<Id>, spec: Grant<C, V>, candidates: seq<Id>)
    requires Progress(was, rows, key, handled, specs, placed) && candidates != []
    requires forall id :: id in was ==> (id in candidates <==> key(was[id].cond) == key(spec.cond))
    requires forall id :: id in candidates ==> id !in placed
    requires forall id :: id in after <==> id == candidates[0] || (id in rows && id !in candidates)
    requires after[candidates[0]] == spec
    requires forall id :: id in after && id != candidates[0] ==> after[id] == rows[id]
    ensures Progress(was, after, key, handled + {key(spec.cond)}, specs + [spec], placed + [candidates[0]])
  {
    var kept := candidates[0];
    var placed', specs' := placed + [kept], specs + [spec];
    assert kept in candidates;
    assert forall id :: id in placed' <==> id in placed || id == kept;
    forall j | 0 <= j < |specs'|
      ensures placed'[j] in after && after[placed'[j]] == specs'[j]
      ensures key(specs'[j].cond) in handled + {key(spec.cond)}
    {
      if j < |specs| {
        assert placed'[j] == placed[j] && specs'[j] == specs[j] && placed[j] in placed;
      }
    }
  }

  lemma SpecMakesProgress<C(!new), V>(
    was: Rows<C, V>, rows: Rows<C, V>, key: C -> string, storable: C -> bool, handled: set<string>,
    specs: seq<Grant<C, V>>, placed: seq<Id>, spec: Grant<C, V>, n: Id, nextId: Id)
    requires Lawful(key, storable) && (forall id :: id in was ==> storable(was[id].cond) && id < n)
    requires Progress(was, rows, key, handled, specs, placed)
    requires key(spec.cond) !in handled
    requires nextId !in rows && nextId >= n
    ensures
      var k := key(spec.cond);
      var candidates := IdsWithKey(was, key, k, n);
      && (forall id :: id in candidates ==> id in rows && rows[id] == was[id])
      && Progress(was, AfterSpec(rows, nextId, spec, candidates), key, handled + {k},
                  specs + [spec], placed + [PlaceOf(nextId, candidates)])
  {
    var k := key(spec.cond);
    var candidates := IdsWithKey(was, key, k, n);
    CandidatesUntouched(was, rows, key, handled, specs, placed, k, n);
    if candidates == [] {
      CreationMakesProgress(was, rows, key, handled, specs, placed, spec, n, nextId);
    } else {
      assert candidates[0] in candidates;
      UpdateMakesProgress(was, rows, key, handled, specs, placed, spec, candidates, n);
    }
  }

  lemma LeftoverMakesProgress<C, V>(
    was: Rows<C, V>, rows: Rows<C, V>, key: C -> string, handled: set<string>,
    specs: seq<Grant<C, V>>, placed: seq<Id>, k: string, n: Id)
    requires Progress(was, rows, key, handled, specs, placed)
    requires k !in handled && forall id :: id in was ==> id < n
    ensures
      var candidates := IdsWithKey(was, key, k, n);
      && (forall id :: id in candidates ==> id in rows)
      && Progress(was, rows - Elements(candidates), key, handled + {k}, specs, placed)
  {
    CandidatesUntouched(was, rows, key, handled, specs, placed, k, n);
  }

  /* ---------------------------------------------------------------- what an apply counts */

  /** Specs without any row of their key. */
  function NumAbsent<C, V>(was: Rows<C, V>, key: C -> string, n: Id, specs: seq<Grant<C, V>>): nat {
    if specs == [] then 0
    else
      NumAbsent(was, key, n, specs[..|specs| - 1])
      + (if IdsWithKey(was, key, key(specs[|specs| - 1].cond), n) == [] then 1 else 0)
  }

  /** The oldest row of the spec's key has other terms. */
  predicate Differs<C, V(==)>(was: Rows<C, V>, key: C -> string, n: Id, spec: Grant<C, V>) {
    var ids := IdsWithKey(was, key, key(spec.cond), n);
    ids != [] && (assert ids[0] in ids; was[ids[0]].terms != spec.terms)
  }

  function NumDiffering<C, V(==)>(was: Rows<C, V>, key: C -> string, n: Id, specs: seq<Grant<C, V>>): nat {
    if specs == [] then 0
    else
      NumDiffering(was, key, n, specs[..|specs| - 1]) + (if Differs(was, key, n, specs[|specs| - 1]) then 1 else 0)
  }

  /** The table holds exactly one row per spec, with the contents of the spec. */
  ghost predicate Exactly<C, V>(rows: Rows<C, V>, specs: seq<Grant<C, V>>, placed: seq<Id>) {
    && |placed| == |specs| && rows.Keys == Elements(placed)
    && (forall i, j :: 0 <= i < j < |placed| ==> placed[i] != placed[j])
    && forall j :: 0 <= j < |specs| ==> placed[j] in rows && rows[placed[j]] == specs[j]
  }

  predicate DistinctKeys<C, V>(key: C -> string, specs: seq<Grant<C, V>>) {
    forall i, j :: 0 <= i < j < |specs| ==> key(specs[i].cond) != key(specs[j].cond)
  }

  /** When every key was handled, only the placed rows are left. */
  lemma AllHandled<C, V>(
    was: Rows<C, V>, rows: Rows<C, V>, key: C -> string, handled: set<string>,
    specs: seq<Grant<C, V>>, placed: seq<Id>)
    requires Progress(was, rows, key, handled, specs, placed) && DistinctKeys(key, specs)
    requires forall id :: id in was ==> key(was[id].cond) in handled
    ensures Exactly(rows, specs, placed) && Settled(was, key, handled) == was.Keys
  {
    assert forall i, j :: 0 <= i < j < |placed| ==>
             rows[placed[i]].cond == specs[i].cond && rows[placed[j]].cond == specs[j].cond;
    assert forall id :: id in Elements(placed) ==> id in rows;
  }

  /** In an exact table a spec has a row of its key, and the oldest one is its own. */
  lemma SpecIsCurrent<C, V>(
    rows: Rows<C, V>, key: C -> string, n: Id, specs: seq<Grant<C, V>>, placed: seq<Id>, i: nat)
    requires Exactly(rows, specs, placed) && DistinctKeys(key, specs) && i < |specs|
    requires forall id :: id in rows ==> id < n
    ensures IdsWithKey(rows, key, key(specs[i].cond), n) != [] && !Differs(rows, key, n, specs[i])
  {
    var k := key(specs[i].cond);
    var ids := IdsWithKey(rows, key, k, n);
    assert placed[i] in ids && ids[0] in ids;
    assert ids[0] in Elements(placed);
    var j :| 0 <= j < |placed| && placed[j] == ids[0];
    assert rows[placed[j]] == specs[j];
    assert j == i;
  }

  lemma {:induction false} ExactTableIsCurrent<C, V>(
    rows: Rows<C, V>, key: C -> string, n: Id, specs: seq<Grant<C, V>>, placed: seq<Id>, i: nat)
    requires Exactly(rows, specs, placed) && DistinctKeys(key, specs) && i <= |specs|
    requires forall id :: id in rows ==> id < n
    ensures NumAbsent(rows, key, n, specs[..i]) == 0 && NumDiffering(rows, key, n, specs[..i]) == 0
  {
    if i > 0 {
      ExactTableIsCurrent(rows, key, n, specs, placed, i - 1);
      assert specs[..i] == specs[..i - 1] + [specs[i - 1]];
      NumOneMore(rows, key, n, specs[..i - 1], specs[i - 1]);
      SpecIsCurrent(rows, key, n, specs, placed, i - 1);
    }
  }

  /* ---------------------------------------------------------------- the transaction */

  lemma OneMoreDeleted<C, V>(rows: Rows<C, V>, ids: seq<Id>, i: nat)
    requires i < |ids| && forall j, k :: 0 <= j < k < |ids| ==> ids[j] < ids[k]
    ensures ids[i] in ids && ids[i] !in ids[..i]
    ensures rows - Elements(ids[..i + 1]) == rows - Elements(ids[..i]) - {ids[i]}
  {
    assert ids[..i + 1] == ids[..i] + [ids[i]];
    assert Elements(ids[..i + 1]) == Elements(ids[..i]) + {ids[i]};
  }

  method DeleteAll<C, V, G>(db: Db<C, V, G>, actor: string, ids: seq<Id>, works: nat -> bool)
    returns (t: Db<C, V, G>, ok: bool)
    requires Audited(db) && (forall id :: id in ids ==> id in db.rows)
    requires forall i, j :: 0 <= i < j < |ids| ==> ids[i] < ids[j]
    ensures ok ==> Audited(t) && t.rows == db.rows - Elements(ids) && |t.audit| == |db.audit| + |ids|
    ensures ok ==> t.nextId == db.nextId && t.groups == db.groups && (ids == [] ==> t == db)
    ensures Extends(db.audit, t.audit, actor)
    ensures (forall i: nat :: works(i)) ==> ok
  {
    t, ok := db, true;
    for i := 0 to |ids|
      invariant Audited(t) && t.rows == db.rows - Elements(ids[..i]) && |t.audit| == |db.audit| + i
      invariant t.nextId == db.nextId && t.groups == db.groups && (i == 0 ==> t == db)
      invariant Extends(db.audit, t.audit, actor)
    {
      if !works(i) { return t, false; }
      OneMoreDeleted(db.rows, ids, i);
      ChangesAudited(t, actor, ids[i], t.rows[ids[i]]);
      ghost var before := t.audit;
      t := DeleteTx(t, actor, ids[i]);
      ExtendsFurther(db.audit, before, t.audit, actor);
    }
    assert ids[..|ids|] == ids;
  }

  /** The effect of one spec on the result counters. */
  function Counted<C, V(==)>(c: Counts, was: Rows<C, V>, spec: Grant<C, V>, candidates: seq<Id>): Counts
    requires forall id :: id in candidates ==> id in was
  {
    if candidates == [] then c.(created := c.created + 1)
    else
      assert candidates[0] in candidates;
      var d := c.(deleted := c.deleted + |candidates| - 1);
      if was[candidates[0]].terms == spec.terms then d.(kept := d.kept + 1) else d.(updated := d.updated + 1)
  }

  function Changes(c: Counts): nat {
    c.created + c.updated + c.deleted
  }

  /** Creates the grant with the groups it refers to; the groups, the row and the event are three store calls. */
  method CreateMissing<C(!new), V(==), G>(
    db: Db<C, V, G>, actor: string, spec: Grant<C, V>, storable: C -> bool, groupsOf: C -> set<G>, works: nat -> bool)
    returns (t: Db<C, V, G>, ok: bool)
    requires Audited(db)
    ensures ok <==> works(0) && works(1) && works(2) && storable(spec.cond)
    ensures ok ==> Audited(t) && t.nextId == db.nextId + 1 && t.rows == db.rows[db.nextId := spec]
    ensures ok ==> t.audit == db.audit + [Created(actor, db.nextId, spec)]
    ensures ok ==> t.groups == db.groups + groupsOf(spec.cond)
    ensures Extends(db.audit, t.audit, actor)
  {
    if !works(0) || !works(1) || !works(2) || !storable(spec.cond) {
      return db, false;
    }
    ChangesAudited(db, actor, 0, spec);
    t, ok := CreateTx(db, actor, spec), true;
    t := t.(groups := t.groups + groupsOf(spec.cond));
  }

  /** An existing grant is updated and its duplicates deleted, a missing one is created with its groups. */
  method ApplySpec<C(!new), V(==), G>(
    db: Db<C, V, G>, actor: string, spec: Grant<C, V>, candidates: seq<Id>, counts: Counts,
    storable: C -> bool, groupsOf: C -> set<G>, works: nat -> bool)
    returns (t: Db<C, V, G>, counts': Counts, ok: bool)
    requires Audited(db) && (forall id :: id in candidates ==> id in db.rows)
    requires forall i, j :: 0 <= i < j < |candidates| ==> candidates[i] < candidates[j]
    ensures ok ==> Audited(t) && t.nextId >= db.nextId && t.rows == AfterSpec(db.rows, db.nextId, spec, candidates)
    ensures ok ==> counts' == Counted(counts, db.rows, spec, candidates)
    ensures ok ==> |t.audit| - |db.audit| == Changes(counts') - Changes(counts)
    ensures ok ==> t.groups == db.groups + (if candidates == [] then groupsOf(spec.cond) else {})
    ensures ok && Changes(counts') == Changes(counts) ==> t == db
    ensures ok && candidates == [] ==> storable(spec.cond)
    ensures Extends(db.audit, t.audit, actor)
    ensures (forall i: nat :: works(i)) && (candidates == [] ==> storable(spec.cond)) ==> ok
  {
    t, counts', ok := db, counts, true;
    if |candidates| == 0 {
      t, ok := CreateMissing(db, actor, spec, storable, groupsOf, works);
      counts' := counts.(created := counts.created + 1);
      return;
    }
    var kept := candidates[0];
    assert kept in candidates && kept !in candidates[1..];
    assert forall id :: id in candidates[1..] ==> id in candidates;
    t, ok := DeleteAll(db, actor, candidates[1..], works);
    if !ok { return; }
    counts' := counts'.(deleted := counts'.deleted + |candidates| - 1);
    assert t.rows[kept] == db.rows[kept];
    if t.rows[kept].terms == spec.terms {
      assert t.rows == AfterSpec(db.rows, db.nextId, spec, candidates);
      counts' := counts'.(kept := counts'.kept + 1);
      return;
    }
    if !works(|candidates|) {
      return t, counts', false;
    }
    var updated := t.rows[kept].(terms := spec.terms);
    ChangesAudited(t, actor, kept, updated);
    ghost var before := t.audit;
    t := UpdateTx(t, actor, kept, updated);
    ExtendsFurther(db.audit, before, t.audit, actor);
    counts' := counts'.(updated := counts'.updated + 1);
  }

  function KeysOf<C, V>(key: C -> string, specs: seq<Grant<C, V>>): set<string> {
    set i | 0 <= i < |specs| :: key(specs[i].cond)
  }

  /** The groups of the specs that have no row of their key yet. */
  function NewGroups<C, V, G>(
    was: Rows<C, V>, key: C -> string, n: Id, groupsOf: C -> set<G>, specs: seq<Grant<C, V>>): set<G>
  {
    if specs == [] then {}
    else
      var spec := specs[|specs| - 1];
      NewGroups(was, key, n, groupsOf, specs[..|specs| - 1])
      + (if IdsWithKey(was, key, key(spec.cond), n) == [] then groupsOf(spec.cond) else {})
  }

  /** No statement of the transaction fails; statements are numbered per spec. */
  ghost predicate AllWork(works: (nat, nat) -> bool) {
    forall i: nat, j: nat :: works(i, j)
  }

  /** What an apply accepts: valid specs the database can store, no two for the same condition. */
  predicate Acceptable<C, V>(
    key: C -> string, storable: C -> bool, valid: Grant<C, V> -> bool, specs: seq<Grant<C, V>>)
  {
    && (forall i :: 0 <= i < |specs| ==> valid(specs[i]) && storable(specs[i].cond))
    && DistinctKeys(key, specs)
  }

  /** The bookkeeping of a partial apply: every spec and every settled row is counted exactly once. */
  ghost predicate Tallied<C, V, G>(
    db: Db<C, V, G>, t: Db<C, V, G>, key: C -> string, handled: set<string>,
    specs: seq<Grant<C, V>>, counts: Counts)
  {
    && counts.created + counts.updated + counts.kept == |specs|
    && counts.updated + counts.kept + counts.deleted == |Settled(db.rows, key, handled)|
    && |t.audit| == |db.audit| + Changes(counts)
    && counts.created == NumAbsent(db.rows, key, db.nextId, specs)
    && counts.updated == NumDiffering(db.rows, key, db.nextId, specs)
    && (Changes(counts) == 0 ==> t == db)
  }

  /** A spec keeps the oldest row of its condition; only a spec without rows gets a new one. */
  ghost predicate OldestKept<C, V>(
    was: Rows<C, V>, key: C -> string, n: Id, specs: seq<Grant<C, V>>, placed: seq<Id>)
  {
    |placed| == |specs| && forall j :: 0 <= j < |specs| ==>
      var ids := IdsWithKey(was, key, key(specs[j].cond), n);
      if ids == [] then placed[j] >= n else placed[j] == ids[0]
  }

  /** The state of the transaction after the specs so far. */
  ghost predicate Underway<C(!new), V, G>(
    db: Db<C, V, G>, t: Db<C, V, G>, key: C -> string, storable: C -> bool, groupsOf: C -> set<G>,
    handled: set<string>, specs: seq<Grant<C, V>>, placed: seq<Id>, counts: Counts)
  {
    && Audited(t) && t.nextId >= db.nextId
    && (forall id :: id in t.rows ==> storable(t.rows[id].cond))
    && t.groups == db.groups + NewGroups(db.rows, key, db.nextId, groupsOf, specs)
    && Progress(db.rows, t.rows, key, handled, specs, placed)
    && OldestKept(db.rows, key, db.nextId, specs, placed)
    && Tallied(db, t, key, handled, specs, counts)
  }

  /** A consistent database: audited, and with nothing in it that the text type refuses. */
  ghost predicate Consistent<C(!new), V, G>(db: Db<C, V, G>, key: C -> string, storable: C -> bool) {
    Audited(db) && Lawful(key, storable) && forall id :: id in db.rows ==> storable(db.rows[id].cond)
  }

  /** What ApplySpec does to a transaction, as one predicate. */
  ghost predicate SpecApplied<C(!new), V, G>(
    t: Db<C, V, G>, t': Db<C, V, G>, spec: Grant<C, V>, candidates: seq<Id>, counts: Counts, counts': Counts,
    storable: C -> bool, groupsOf: C -> set<G>)
  {
    && (forall id :: id in candidates ==> id in t.rows)
    && Audited(t') && t'.nextId >= t.nextId && t'.rows == AfterSpec(t.rows, t.nextId, spec, candidates)
    && counts' == Counted(counts, t.rows, spec, candidates)
    && |t'.audit| - |t.audit| == Changes(counts') - Changes(counts)
    && t'.groups == t.groups + (if candidates == [] then groupsOf(spec.cond) else {})
    && (Changes(counts') == Changes(counts) ==> t' == t)
    && (candidates == [] ==> storable(spec.cond))
  }

  lemma NumOneMore<C, V>(was: Rows<C, V>, key: C -> string, n: Id, specs: seq<Grant<C, V>>, spec: Grant<C, V>)
    ensures NumAbsent(was, key, n, specs + [spec])
            == NumAbsent(was, key, n, specs) + (if IdsWithKey(was, key, key(spec.cond), n) == [] then 1 else 0)
    ensures NumDiffering(was, key, n, specs + [spec])
            == NumDiffering(was, key, n, specs) + (if Differs(was, key, n, spec) then 1 else 0)
  {
    assert (specs + [spec])[..|specs|] == specs;
  }

  lemma CountedFromSame<C, V>(c: Counts, rows: Rows<C, V>, was: Rows<C, V>, spec: Grant<C, V>, candidates: seq<Id>)
    requires forall id :: id in candidates ==> id in rows && id in was && rows[id] == was[id]
    ensures Counted(c, rows, spec, candidates) == Counted(c, was, spec, candidates)
  {
    if candidates != [] {
      assert candidates[0] in candidates;
    }
  }

  /** One spec adds one to the specs counted and its candidates to the rows counted. */
  lemma CountsAdvance<C, V>(c: Counts, was: Rows<C, V>, key: C -> string, n: Id, spec: Grant<C, V>)
    ensures
      var ids := IdsWithKey(was, key, key(spec.cond), n);
      var c' := Counted(c, was, spec, ids);
      && c'.created == c.created + (if ids == [] then 1 else 0)
      && c'.updated == c.updated + (if Differs(was, key, n, spec) then 1 else 0)
      && c'.created + c'.updated + c'.kept == c.created + c.updated + c.kept + 1
      && c'.updated + c'.kept + c'.deleted == c.updated + c.kept + c.deleted + |ids|
      && Changes(c') >= Changes(c)
  {
    var ids := IdsWithKey(was, key, key(spec.cond), n);
    if ids != [] {
      assert ids[0] in ids;
    }
  }

  lemma TallyAdvances<C, V, G>(
    db: Db<C, V, G>, t: Db<C, V, G>, t': Db<C, V, G>, key: C -> string,
    handled: set<string>, specs: seq<Grant<C, V>>, counts: Counts, counts': Counts, spec: Grant<C, V>)
    requires Tallied(db, t, key, handled, specs, counts) && key(spec.cond) !in handled
    requires forall id :: id in db.rows ==> id < db.nextId
    requires counts' == Counted(counts, db.rows, spec, IdsWithKey(db.rows, key, key(spec.cond), db.nextId))
    requires |t'.audit| - |t.audit| == Changes(counts') - Changes(counts)
    requires Changes(counts') == Changes(counts) ==> t' == t
    ensures Tallied(db, t', key, handled + {key(spec.cond)}, specs + [spec], counts')
  {
    CountsAdvance(counts, db.rows, key, db.nextId, spec);
    SettledGrows(db.rows, key, handled, key(spec.cond), db.nextId);
    NumOneMore(db.rows, key, db.nextId, specs, spec);
  }

  lemma SpecAdvances<C(!new), V, G>(
    db: Db<C, V, G>, t: Db<C, V, G>, t': Db<C, V, G>, key: C -> string, storable: C -> bool, groupsOf: C -> set<G>,
    handled: set<string>, specs: seq<Grant<C, V>>, placed: seq<Id>, counts: Counts, counts': Counts,
    spec: Grant<C, V>, candidates: seq<Id>)
    requires Consistent(db, key, storable)
    requires Underway(db, t, key, storable, groupsOf, handled, specs, placed, counts)
    requires key(spec.cond) !in handled && candidates == IdsWithKey(db.rows, key, key(spec.cond), db.nextId)
    requires SpecApplied(t, t', spec, candidates, counts, counts', storable, groupsOf)
    ensures Underway(db, t', key, storable, groupsOf, handled + {key(spec.cond)}, specs + [spec],
                     placed + [PlaceOf(t.nextId, candidates)], counts')
  {
    assert t.nextId !in t.rows;
    SpecMakesProgress(db.rows, t.rows, key, storable, handled, specs, placed, spec, db.nextId, t.nextId);
    CountedFromSame(counts, t.rows, db.rows, spec, candidates);
    TallyAdvances(db, t, t', key, handled, specs, counts, counts', spec);
    StorableKept(t.rows, t.nextId, spec, candidates, storable);
    NewGroupsOneMore(db.rows, key, db.nextId, groupsOf, specs, spec, db.groups);
    OldestOneMore(db.rows, key, db.nextId, specs, placed, spec, t.nextId);
  }

  lemma OldestOneMore<C, V>(
    was: Rows<C, V>, key: C -> string, n: Id, specs: seq<Grant<C, V>>, placed: seq<Id>, spec: Grant<C, V>, nextId: Id)
    requires OldestKept(was, key, n, specs, placed) && nextId >= n
    ensures OldestKept(was, key, n, specs + [spec],
                       placed + [PlaceOf(nextId, IdsWithKey(was, key, key(spec.cond), n))])
  {
  }

  lemma NewGroupsOneMore<C, V, G>(
    was: Rows<C, V>, key: C -> string, n: Id, groupsOf: C -> set<G>, specs: seq<Grant<C, V>>, spec: Grant<C, V>,
    first: set<G>)
    ensures first + NewGroups(was, key, n, groupsOf, specs + [spec])
            == first + NewGroups(was, key, n, groupsOf, specs)
               + (if IdsWithKey(was, key, key(spec.cond), n) == [] then groupsOf(spec.cond) else {})
  {
    assert (specs + [spec])[..|specs|] == specs;
  }

  lemma StorableKept<C, V>(rows: Rows<C, V>, nextId: Id, spec: Grant<C, V>, candidates: seq<Id>, storable: C -> bool)
    requires forall id :: id in candidates ==> id in rows
    requires forall id :: id in rows ==> storable(rows[id].cond)
    requires candidates == [] ==> storable(spec.cond)
    ensures
      var after := AfterSpec(rows, nextId, spec, candidates);
      forall id :: id in after ==> storable(after[id].cond)
  {
    if candidates != [] {
      assert candidates[0] in candidates;
    }
  }

  /** One more spec of a transaction that is underway. */
  method ApplyNext<C(!new), V(==), G>(
    ghost db: Db<C, V, G>, t: Db<C, V, G>, actor: string, ghost specs: seq<Grant<C, V>>, ghost placed: seq<Id>,
    spec: Grant<C, V>, candidates: seq<Id>, counts: Counts, ghost handled: set<string>,
    ghost key: C -> string, storable: C -> bool, groupsOf: C -> set<G>, works: (nat, nat) -> bool, i: nat)
    returns (t': Db<C, V, G>, counts': Counts, ghost place: Id, ok: bool)
    requires Consistent(db, key, storable)
    requires Underway(db, t, key, storable, groupsOf, handled, specs, placed, counts)
    requires key(spec.cond) !in handled && candidates == IdsWithKey(db.rows, key, key(spec.cond), db.nextId)
    ensures ok ==> storable(spec.cond)
    ensures ok ==> Underway(db, t', key, storable, groupsOf, handled + {key(spec.cond)}, specs + [spec],
                            placed + [place], counts')
    ensures Extends(t.audit, t'.audit, actor)
    ensures !ok ==> !AllWork(works) || !storable(spec.cond)
  {
    place := PlaceOf(t.nextId, candidates);
    CandidatesUntouched(db.rows, t.rows, key, handled, specs, placed, key(spec.cond), db.nextId);
    t', counts', ok := ApplySpec(t, actor, spec, candidates, counts, storable, groupsOf, (n: nat) => works(i, n));
    if ok {
      StorableIfApplied(db, key, storable, spec);
      SpecAdvances(db, t, t', key, storable, groupsOf, handled, specs, placed, counts, counts', spec, candidates);
    }
  }

  lemma AcceptOneMore<C, V>(
    key: C -> string, storable: C -> bool, valid: Grant<C, V> -> bool, specs: seq<Grant<C, V>>, i: nat)
    requires i < |specs| && Acceptable(key, storable, valid, specs[..i])
    requires valid(specs[i]) && storable(specs[i].cond) && key(specs[i].cond) !in KeysOf(key, specs[..i])
    ensures Acceptable(key, storable, valid, specs[..i + 1])
    ensures KeysOf(key, specs[..i + 1]) == KeysOf(key, specs[..i]) + {key(specs[i].cond)}
    ensures specs[..i + 1] == specs[..i] + [specs[i]]
  {
    var before, after := specs[..i], specs[..i + 1];
    assert forall j :: 0 <= j < i ==> after[j] == before[j] && key(before[j].cond) in KeysOf(key, before);
    assert after[i] == specs[i];
    assert key(after[i].cond) in KeysOf(key, after);
    assert forall j :: 0 <= j < i ==> key(after[j].cond) in KeysOf(key, after);
  }

  lemma NothingPlacedYet<C, V>(rows: Rows<C, V>, key: C -> string)
    ensures Progress(rows, rows, key, {}, [], [])
  {
    var handled: set<string> := {};
    forall id | id in rows
      ensures key(rows[id].cond) !in handled
    {
    }
  }

  lemma NothingDoneYet<C(!new), V, G>(db: Db<C, V, G>, key: C -> string, storable: C -> bool, groupsOf: C -> set<G>)
    requires Consistent(db, key, storable)
    ensures Underway(db, db, key, storable, groupsOf, {}, [], [], Counts(0, 0, 0, 0))
  {
    var none: seq<Grant<C, V>> := [];
    assert Settled(db.rows, key, {}) == {};
    assert NewGroups(db.rows, key, db.nextId, groupsOf, none) == {};
    assert db.groups == db.groups + NewGroups(db.rows, key, db.nextId, groupsOf, none);
    NothingPlacedYet(db.rows, key);
  }

  /** Looking up and removing the group of a key. */
  lemma GroupTaken<C, V>(
    groups: map<string, seq<Id>>, rows: Rows<C, V>, key: C -> string, n: Id, handled: set<string>, k: string)
    requires Grouped(groups, rows, key, n, handled) && (k in groups || k !in handled)
    ensures k !in handled && (k in groups ==> groups[k] != [])
    ensures (if k in groups then groups[k] else []) == IdsWithKey(rows, key, k, n)
    ensures Grouped(groups - {k}, rows, key, n, handled + {k})
  {
  }

  lemma RefusedSpec<C, V>(
    key: C -> string, storable: C -> bool, valid: Grant<C, V> -> bool, specs: seq<Grant<C, V>>, i: nat)
    requires i < |specs| && (!valid(specs[i]) || key(specs[i].cond) in KeysOf(key, specs[..i]))
    ensures !Acceptable(key, storable, valid, specs)
  {
    if key(specs[i].cond) in KeysOf(key, specs[..i]) {
      var j :| 0 <= j < i && key(specs[..i][j].cond) == key(specs[i].cond);
      assert specs[j] == specs[..i][j];
    }
  }

  /** The loop state before spec number `i`. */
  ghost predicate Stage<C(!new), V, G>(
    db: Db<C, V, G>, t: Db<C, V, G>, key: C -> string, storable: C -> bool, valid: Grant<C, V> -> bool,
    groupsOf: C -> set<G>, specs: seq<Grant<C, V>>, placed: seq<Id>, counts: Counts, groups: map<string, seq<Id>>)
  {
    && Underway(db, t, key, storable, groupsOf, KeysOf(key, specs), specs, placed, counts)
    && Grouped(groups, db.rows, key, db.nextId, KeysOf(key, specs))
    && Acceptable(key, storable, valid, specs)
  }

  method ReconcileSpec<C(!new), V(==), G>(
    ghost db: Db<C, V, G>, t: Db<C, V, G>, actor: string, specs: seq<Grant<C, V>>, i: nat, ghost placed: seq<Id>,
    counts: Counts, groups: map<string, seq<Id>>, seen: set<string>,
    key: C -> string, storable: C -> bool, valid: Grant<C, V> -> bool, groupsOf: C -> set<G>, works: (nat, nat) -> bool)
    returns (t': Db<C, V, G>, counts': Counts, groups': map<string, seq<Id>>, seen': set<string>,
             ghost placed': seq<Id>, ok: bool)
    requires Consistent(db, key, storable) && i < |specs| && seen == KeysOf(key, specs[..i])
    requires Stage(db, t, key, storable, valid, groupsOf, specs[..i], placed, counts, groups)
    ensures ok ==> Stage(db, t', key, storable, valid, groupsOf, specs[..i + 1], placed', counts', groups')
    ensures ok ==> seen' == KeysOf(key, specs[..i + 1])
    ensures Extends(t.audit, t'.audit, actor)
    ensures !ok ==> !AllWork(works) || !Acceptable(key, storable, valid, specs)
  {
    var spec := specs[i];
    var k := key(spec.cond);
    if !valid(spec) || k in seen {
      RefusedSpec(key, storable, valid, specs, i);
      return t, counts, groups, seen, placed, false;
    }
    var candidates := if k in groups then groups[k] else [];
    GroupTaken(groups, db.rows, key, db.nextId, seen, k);
    ghost var place;
    t', counts', place, ok := ApplyNext(db, t, actor, specs[..i], placed, spec, candidates, counts, seen,
                                        key, storable, groupsOf, works, i);
    groups', seen', placed' := groups - {k}, seen + {k}, placed + [place];
    if ok {
      AcceptOneMore(key, storable, valid, specs, i);
    }
  }

  /** The loop over the specs. */
  method ReconcileSpecs<C(!new), V(==), G>(
    db: Db<C, V, G>, actor: string, specs: seq<Grant<C, V>>, key: C -> string, storable: C -> bool,
    valid: Grant<C, V> -> bool, groupsOf: C -> set<G>, works: (nat, nat) -> bool)
    returns (t: Db<C, V, G>, counts: Counts, groups: map<string, seq<Id>>, ghost placed: seq<Id>, ok: bool)
    requires Consistent(db, key, storable)
    ensures ok ==> Stage(db, t, key, storable, valid, groupsOf, specs, placed, counts, groups)
    ensures Extends(db.audit, t.audit, actor)
    ensures !ok ==> !AllWork(works) || !Acceptable(key, storable, valid, specs)
  {
    t, counts, placed, ok := db, Counts(0, 0, 0, 0), [], true;
    groups := GrantsByKey(db.rows, key, db.nextId);
    var seen: set<string> := {};
    NothingDoneYet(db, key, storable, groupsOf);
    assert specs[..0] == [];
    for i := 0 to |specs|
      invariant seen == KeysOf(key, specs[..i])
      invariant Stage(db, t, key, storable, valid, groupsOf, specs[..i], placed, counts, groups)
      invariant Extends(db.audit, t.audit, actor)
    {
      ghost var before := t.audit;
      t, counts, groups, seen, placed, ok := ReconcileSpec(
        db, t, actor, specs, i, placed, counts, groups, seen, key, storable, valid, groupsOf, works);
      ExtendsFurther(db.audit, before, t.audit, actor);
      if !ok { return; }
    }
    ok := true;
    assert specs[..|specs|] == specs;
  }

  /** A spec whose key belongs to a row has the condition of that row. */
  lemma StorableIfApplied<C(!new), V, G>(db: Db<C, V, G>, key: C -> string, storable: C -> bool, spec: Grant<C, V>)
    requires Consistent(db, key, storable)
    ensures IdsWithKey(db.rows, key, key(spec.cond), db.nextId) != [] ==> storable(spec.cond)
  {
    var ids := IdsWithKey(db.rows, key, key(spec.cond), db.nextId);
    if ids != [] {
      assert ids[0] in ids;
    }
  }

  /* ---------------------------------------------------------------- rows nobody declares any more */

  lemma LeftoverAdvances<C(!new), V, G>(
    db: Db<C, V, G>, t: Db<C, V, G>, t': Db<C, V, G>, key: C -> string, storable: C -> bool, groupsOf: C -> set<G>,
    handled: set<string>, specs: seq<Grant<C, V>>, placed: seq<Id>, counts: Counts, counts': Counts, k: string,
    ids: seq<Id>)
    requires Consistent(db, key, storable) && k !in handled && ids == IdsWithKey(db.rows, key, k, db.nextId) != []
    requires Underway(db, t, key, storable, groupsOf, handled, specs, placed, counts)
    requires Audited(t') && t'.rows == t.rows - Elements(ids) && |t'.audit| == |t.audit| + |ids|
    requires t'.nextId == t.nextId && t'.groups == t.groups && counts' == counts.(deleted := counts.deleted + |ids|)
    ensures Underway(db, t', key, storable, groupsOf, handled + {k}, specs, placed, counts')
  {
    LeftoverMakesProgress(db.rows, t.rows, key, handled, specs, placed, k, db.nextId);
    LeftoverIsTallied(db, t, t', key, handled, specs, counts, counts', k, ids);
  }

  lemma LeftoverIsTallied<C, V, G>(
    db: Db<C, V, G>, t: Db<C, V, G>, t': Db<C, V, G>, key: C -> string, handled: set<string>,
    specs: seq<Grant<C, V>>, counts: Counts, counts': Counts, k: string, ids: seq<Id>)
    requires k !in handled && ids == IdsWithKey(db.rows, key, k, db.nextId) != []
    requires Tallied(db, t, key, handled, specs, counts) && forall id :: id in db.rows ==> id < db.nextId
    requires |t'.audit| == |t.audit| + |ids| && counts' == counts.(deleted := counts.deleted + |ids|)
    ensures Tallied(db, t', key, handled + {k}, specs, counts')
  {
    SettledGrows(db.rows, key, handled, k, db.nextId);
  }

  lemma NoGroupsLeft<C, V>(rows: Rows<C, V>, key: C -> string, n: Id, handled: set<string>)
    requires Grouped(map[], rows, key, n, handled) && forall id :: id in rows ==> id < n
    ensures forall id :: id in rows ==> key(rows[id].cond) in handled
  {
    forall id | id in rows
      ensures key(rows[id].cond) in handled
    {
      assert id in IdsWithKey(rows, key, key(rows[id].cond), n);
    }
  }

  method DeleteGroup<C(!new), V(==), G>(
    ghost db: Db<C, V, G>, t: Db<C, V, G>, actor: string, ghost specs: seq<Grant<C, V>>, ghost placed: seq<Id>,
    counts: Counts, ids: seq<Id>, ghost k: string, ghost handled: set<string>, ghost key: C -> string,
    ghost storable: C -> bool, ghost groupsOf: C -> set<G>, works: nat -> bool)
    returns (t': Db<C, V, G>, counts': Counts, ok: bool)
    requires Consistent(db, key, storable) && k !in handled && ids == IdsWithKey(db.rows, key, k, db.nextId) != []
    requires Underway(db, t, key, storable, groupsOf, handled, specs, placed, counts)
    ensures ok ==> Underway(db, t', key, storable, groupsOf, handled + {k}, specs, placed, counts')
    ensures Extends(t.audit, t'.audit, actor)
    ensures !ok ==> exists j: nat :: !works(j)
  {
    CandidatesUntouched(db.rows, t.rows, key, handled, specs, placed, k, db.nextId);
    t', ok := DeleteAll(t, actor, ids, works);
    counts' := counts.(deleted := counts.deleted + |ids|);
    if ok {
      LeftoverAdvances(db, t, t', key, storable, groupsOf, handled, specs, placed, counts, counts', k, ids);
    }
  }

  lemma FewerGroups(groups: map<string, seq<Id>>, k: string)
    requires k in groups
    ensures |groups - {k}| < |groups|
  {
    assert (groups - {k}).Keys == groups.Keys - {k};
  }

  /** Deletes the groups that no spec claimed, in any order. */
  method DeleteLeftovers<C(!new), V(==), G>(
    ghost db: Db<C, V, G>, t: Db<C, V, G>, actor: string, ghost specs: seq<Grant<C, V>>, ghost placed: seq<Id>,
    counts: Counts, groups: map<string, seq<Id>>, ghost key: C -> string, ghost storable: C -> bool,
    ghost groupsOf: C -> set<G>, works: (string, nat) -> bool)
    returns (t': Db<C, V, G>, counts': Counts, ghost handled: set<string>, ok: bool)
    requires Consistent(db, key, storable)
    requires Underway(db, t, key, storable, groupsOf, KeysOf(key, specs), specs, placed, counts)
    requires Grouped(groups, db.rows, key, db.nextId, KeysOf(key, specs))
    ensures ok ==> Underway(db, t', key, storable, groupsOf, handled, specs, placed, counts')
    ensures ok ==> forall id :: id in db.rows ==> key(db.rows[id].cond) in handled
    ensures Extends(t.audit, t'.audit, actor)
    ensures !ok ==> exists k, j: nat :: !works(k, j)
  {
    t', counts', ok := t, counts, true;
    handled := KeysOf(key, specs);
    var left := groups;
    while left != map[]
      invariant Underway(db, t', key, storable, groupsOf, handled, specs, placed, counts')
      invariant Grouped(left, db.rows, key, db.nextId, handled)
      invariant Extends(t.audit, t'.audit, actor)
      decreases |left|
    {
      ghost var before := t'.audit;
      assert left.Keys != {};
      var k :| k in left.Keys;
      GroupTaken(left, db.rows, key, db.nextId, handled, k);
      FewerGroups(left, k);
      t', counts', ok := DeleteGroup(db, t', actor, specs, placed, counts', left[k], k, handled,
                                     key, storable, groupsOf, (n: nat) => works(k, n));
      ExtendsFurther(t.audit, before, t'.audit, actor);
      if !ok { return; }
      left, handled := left - {k}, handled + {k};
    }
    ok := true;
    NoGroupsLeft(db.rows, key, db.nextId, handled);
  }

  /* ---------------------------------------------------------------- the store */

  /** What a successful apply promises about the table, the counters and the audit trail. */
  ghost predicate Reconciled<C, V, G>(
    db: Db<C, V, G>, t: Db<C, V, G>, key: C -> string, groupsOf: C -> set<G>, specs: seq<Grant<C, V>>,
    placed: seq<Id>, counts: Counts)
  {
    && Exactly(t.rows, specs, placed) && OldestKept(db.rows, key, db.nextId, specs, placed)
    && counts.created + counts.updated + counts.kept == |specs|
    && counts.updated + counts.kept + counts.deleted == |db.rows|
    && |t.audit| == |db.audit| + Changes(counts)
    && counts.created == NumAbsent(db.rows, key, db.nextId, specs)
    && counts.updated == NumDiffering(db.rows, key, db.nextId, specs)
    && t.groups == db.groups + NewGroups(db.rows, key, db.nextId, groupsOf, specs)
    && (Changes(counts) == 0 ==> t == db)
  }

  lemma ApplyIsComplete<C(!new), V, G>(
    db: Db<C, V, G>, t: Db<C, V, G>, key: C -> string, storable: C -> bool, groupsOf: C -> set<G>,
    handled: set<string>, specs: seq<Grant<C, V>>, placed: seq<Id>, counts: Counts)
    requires Underway(db, t, key, storable, groupsOf, handled, specs, placed, counts) && DistinctKeys(key, specs)
    requires forall id :: id in db.rows ==> key(db.rows[id].cond) in handled
    ensures Reconciled(db, t, key, groupsOf, specs, placed, counts)
  {
    AllHandled(db.rows, t.rows, key, handled, specs, placed);
  }

  /** Every row refers to groups that exist: the foreign key of the table. */
  ghost predicate GroupsExist<C, V, G>(db: Db<C, V, G>, groupsOf: C -> set<G>) {
    forall id :: id in db.rows ==> groupsOf(db.rows[id].cond) <= db.groups
  }

  lemma {:induction false} NewGroupsContain<C, V, G>(
    was: Rows<C, V>, key: C -> string, n: Id, groupsOf: C -> set<G>, specs: seq<Grant<C, V>>, j: nat)
    requires j < |specs| && IdsWithKey(was, key, key(specs[j].cond), n) == []
    ensures groupsOf(specs[j].cond) <= NewGroups(was, key, n, groupsOf, specs)
  {
    if j < |specs| - 1 {
      NewGroupsContain(was, key, n, groupsOf, specs[..|specs| - 1], j);
    }
  }

  /** After an apply the groups of every spec exist: created with a new grant, there already for an old one. */
  lemma SpecGroupsExist<C(!new), V, G>(
    db: Db<C, V, G>, t: Db<C, V, G>, key: C -> string, storable: C -> bool, groupsOf: C -> set<G>,
    specs: seq<Grant<C, V>>, placed: seq<Id>, counts: Counts, j: nat)
    requires Consistent(db, key, storable) && GroupsExist(db, groupsOf)
    requires Reconciled(db, t, key, groupsOf, specs, placed, counts) && j < |specs|
    ensures groupsOf(specs[j].cond) <= t.groups
  {
    var ids := IdsWithKey(db.rows, key, key(specs[j].cond), db.nextId);
    if ids == [] {
      NewGroupsContain(db.rows, key, db.nextId, groupsOf, specs, j);
    } else {
      assert ids[0] in ids;
      assert db.rows[ids[0]].cond == specs[j].cond;
    }
  }

  lemma AllGroupsExist<C(!new), V, G>(
    db: Db<C, V, G>, t: Db<C, V, G>, key: C -> string, storable: C -> bool, groupsOf: C -> set<G>,
    specs: seq<Grant<C, V>>, placed: seq<Id>, counts: Counts)
    requires Consistent(db, key, storable) && GroupsExist(db, groupsOf)
    requires Reconciled(db, t, key, groupsOf, specs, placed, counts)
    ensures GroupsExist(t, groupsOf)
    ensures forall j :: 0 <= j < |specs| ==> groupsOf(specs[j].cond) <= t.groups
  {
    forall j | 0 <= j < |specs|
      ensures groupsOf(specs[j].cond) <= t.groups
    {
      SpecGroupsExist(db, t, key, storable, groupsOf, specs, placed, counts, j);
    }
    forall id | id in t.rows
      ensures groupsOf(t.rows[id].cond) <= t.groups
    {
      assert id in Elements(placed);
      var j :| 0 <= j < |placed| && placed[j] == id;
      assert t.rows[placed[j]] == specs[j];
    }
  }

  /** Applying the same specs again changes nothing and audits nothing. */
  lemma SecondApplyIsNoop<C(!new), V, G>(
    db: Db<C, V, G>, t: Db<C, V, G>, key: C -> string, groupsOf: C -> set<G>, specs: seq<Grant<C, V>>,
    before: seq<Id>, placed: seq<Id>, counts: Counts)
    requires Audited(db) && DistinctKeys(key, specs)
    requires Exactly(db.rows, specs, before)
    requires Reconciled(db, t, key, groupsOf, specs, placed, counts)
    ensures t == db && counts == Counts(0, 0, 0, |specs|)
  {
    CurrentTableCounts(db, key, specs, before);
  }

  /** A table that is exactly the specs has nothing missing, nothing different and nothing to delete. */
  lemma CurrentTableCounts<C, V, G>(db: Db<C, V, G>, key: C -> string, specs: seq<Grant<C, V>>, placed: seq<Id>)
    requires Audited(db) && DistinctKeys(key, specs) && Exactly(db.rows, specs, placed)
    ensures NumAbsent(db.rows, key, db.nextId, specs) == 0 && NumDiffering(db.rows, key, db.nextId, specs) == 0
    ensures |db.rows| == |specs|
  {
    ExactTableIsCurrent(db.rows, key, db.nextId, specs, placed, |specs|);
    assert specs[..|specs|] == specs;
    ExactTableSize(db.rows, specs, placed);
  }

  lemma ExactTableSize<C, V>(rows: Rows<C, V>, specs: seq<Grant<C, V>>, placed: seq<Id>)
    requires Exactly(rows, specs, placed)
    ensures |rows| == |specs|
  {
    DistinctElements(placed);
    assert |rows| == |rows.Keys|;
  }

  lemma {:induction false} DistinctElements(s: seq<Id>)
    requires forall i, j :: 0 <= i < j < |s| ==> s[i] != s[j]
    ensures |Elements(s)| == |s|
  {
    if s != [] {
      var rest, last := s[..|s| - 1], s[|s| - 1];
      DistinctElements(rest);
      assert s == rest + [last];
      assert Elements(s) == Elements(rest) + {last};
      assert last !in rest;
    }
  }

  datatype Outcome = Applied(counts: Counts) | NotApplied

  /**
   One grant table with its audit trail. The constructor arguments say how grants of this kind are
   identified: the reconciliation key, what the text type can store, which specs are valid, which groups
   a new grant needs, and which part of a condition an update keeps.
   */
  class GrantStore<C(!new), V(==), G(==)> {
    const key: C -> string
    const storable: C -> bool
    const valid: Grant<C, V> -> bool
    const groupsOf: C -> set<G>
    const keep: (C, C) -> C
    var db: Db<C, V, G>

    ghost predicate Valid()
      reads this
    {
      && Consistent(db, key, storable) && GroupsExist(db, groupsOf)
      && forall stored, given :: groupsOf(keep(stored, given)) == groupsOf(stored)
    }

    constructor (
      key: C -> string, storable: C -> bool, valid: Grant<C, V> -> bool, groupsOf: C -> set<G>, keep: (C, C) -> C)
      requires Lawful(key, storable)
      requires forall stored, given :: groupsOf(keep(stored, given)) == groupsOf(stored)
      ensures Valid() && db == Db(map[], 0, {}, [])
      ensures this.key == key && this.storable == storable && this.valid == valid
      ensures this.groupsOf == groupsOf && this.keep == keep
    {
      this.key, this.storable, this.valid, this.groupsOf, this.keep := key, storable, valid, groupsOf, keep;
      db := Db(map[], 0, {}, []);
    }

    /** Logins, synchronisations and administrators create groups independently of grants. */
    method AddGroup(group: G, works: bool) returns (ok: bool)
      requires Valid()
      modifies this
      ensures Valid() && ok == (works && group !in old(db).groups)
      ensures db == if ok then old(db).(groups := old(db).groups + {group}) else old(db)
    {
      ok := works && group !in db.groups;
      if ok {
        db := db.(groups := db.groups + {group});
      }
    }

    /** The foreign key refuses a grant whose group does not exist. */
    method Create(actor: string, g: Grant<C, V>, works: bool) returns (ok: bool)
      requires Valid()
      modifies this
      ensures Valid() && ok == (works && storable(g.cond) && groupsOf(g.cond) <= old(db).groups)
      ensures Extends(old(db).audit, db.audit, actor)
      ensures db == if ok then CreateTx(old(db), actor, g) else old(db)
      ensures ok ==> db.audit == old(db).audit + [Created(actor, old(db).nextId, g)]
    {
      ok := works && storable(g.cond) && groupsOf(g.cond) <= db.groups;
      if ok {
        ChangesAudited(db, actor, 0, g);
        db := CreateTx(db, actor, g);
      }
    }

    /** The part of the condition that identifies the owner stays as stored. */
    method Update(actor: string, id: Id, g: Grant<C, V>, works: bool) returns (ok: bool)
      requires Valid()
      modifies this
      ensures Valid()
      ensures ok == (works && id in old(db).rows && storable(keep(old(db).rows[id].cond, g.cond)))
      ensures db == if !ok then old(db)
                    else UpdateTx(old(db), actor, id, g.(cond := keep(old(db).rows[id].cond, g.cond)))
      ensures ok ==> db.audit == old(db).audit + [Updated(actor, id, db.rows[id])]
      ensures Extends(old(db).audit, db.audit, actor)
    {
      ok := works && id in db.rows && storable(keep(db.rows[id].cond, g.cond));
      if ok {
        var stored := g.(cond := keep(db.rows[id].cond, g.cond));
        ChangesAudited(db, actor, id, stored);
        db := UpdateTx(db, actor, id, stored);
      }
    }

    method Delete(actor: string, id: Id, works: bool) returns (ok: bool)
      requires Valid()
      modifies this
      ensures Valid() && ok == (works && id in old(db).rows)
      ensures Extends(old(db).audit, db.audit, actor)
      ensures db == if ok then DeleteTx(old(db), actor, id) else old(db)
      ensures ok ==> db.audit == old(db).audit + [Deleted(actor, id, old(db).rows[id])]
    {
      ok := works && id in db.rows;
      if ok {
        ChangesAudited(db, actor, id, db.rows[id]);
        db := DeleteTx(db, actor, id);
      }
    }

    /** Reconciles the table with the specs in one transaction. */
    method Apply(actor: string, specs: seq<Grant<C, V>>, works: (nat, nat) -> bool, deletes: (string, nat) -> bool)
      returns (r: Outcome, ghost placed: seq<Id>)
      requires Valid()
      modifies this
      ensures Valid()
      ensures r.Applied? ==> Acceptable(key, storable, valid, specs)
                             && Reconciled(old(db), db, key, groupsOf, specs, placed, r.counts)
                             && forall j :: 0 <= j < |specs| ==> groupsOf(specs[j].cond) <= db.groups
      ensures Extends(old(db).audit, db.audit, actor)
      ensures forall i :: |old(db).audit| <= i < |db.audit| ==> EventFits(Replay(db.audit[..i]), db.audit[i])
      ensures r.NotApplied? ==> db == old(db)
      ensures r.NotApplied? ==> !Acceptable(key, storable, valid, specs) || !AllWork(works)
                                || exists k, j: nat :: !deletes(k, j)
    {
      var t, counts, groups, ok;
      t, counts, groups, placed, ok := ReconcileSpecs(db, actor, specs, key, storable, valid, groupsOf, works);
      if !ok {
        return NotApplied, placed;
      }
      ghost var handled;
      t, counts, handled, ok := DeleteLeftovers(
        db, t, actor, specs, placed, counts, groups, key, storable, groupsOf, deletes);
      if !ok {
        return NotApplied, placed;
      }
      ApplyIsComplete(db, t, key, storable, groupsOf, handled, specs, placed, counts);
      AllGroupsExist(db, t, key, storable, groupsOf, specs, placed, counts);
      db := t;
      AllEventsFit(db.audit);
      return Applied(counts), placed;
    }
  }
}
