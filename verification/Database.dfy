/**
 * The database behind the services: one class holding the tables, with the transaction
 * runner and the data-access methods, and the in-memory resource they load and save.
 */
module Database {
  import opened Common
  import opened Registry
  import opened Conditions
  import opened Aggregation
  import opened AggregationLaws
  import opened Delivery
  import opened Tables
  import opened Lifecycle

  /** A loaded resource; the services mark it in memory before they save it. */
  class Resource {
    const id: Id
    const kind: Kind
    const name: string
    const owner: Option<Id>
    const createdTime: Time
    var deletedTime: Option<Time>
    var generation: int
    var updatedTime: Time
    var spec: string
    var labels: map<string, string>
    var conditions: seq<Condition>

    constructor (id: Id, row: Row, conditions: seq<Condition>)
      ensures this.id == id && Row() == row && this.conditions == conditions
    {
      this.id, kind, name, owner, createdTime := id, row.kind, row.name, row.owner, row.createdTime;
      deletedTime, generation, updatedTime := row.deletedTime, row.generation, row.updatedTime;
      spec, labels := row.spec, row.labels;
      this.conditions := conditions;
    }

    function Row(): Row
      reads this
    {
      Tables.Row(kind, name, owner, deletedTime, generation, createdTime, updatedTime, spec, labels)
    }

    method MarkDeleted(t: Time)
      modifies this`deletedTime
      ensures deletedTime == Some(t)
    {
      deletedTime := Some(t);
    }

    method IncrementGeneration()
      modifies this`generation
      ensures generation == old(generation) + 1
    {
      generation := generation + 1;
    }
  }

  /** The object was loaded for `id`, holds `row`, and its conditions list the table `stored`. */
  ghost predicate Loaded(r: Resource, id: Id, row: Row, stored: ConditionTable)
    reads r
  {
    r.id == id && r.Row() == row && ByType(r.conditions) == stored
  }

  // ---------------------------------------------------------------------------------------
  // The timestamp contract of UpdateConditions
  // ---------------------------------------------------------------------------------------

  function OrNow(t: Time, now: Time): Time {
    if t == ZERO_TIME then now else t
  }

  /** What is written for one condition next to the stored conditions of the resource. */
  function Preserve(c: Condition, existing: ConditionTable, now: Time): Condition {
    var prev := Lookup(existing, c.ctype);
    var transition :=
      if prev.Some? && prev.value.status == c.status then prev.value.lastTransitionTime else c.lastTransitionTime;
    var created := if prev.Some? then prev.value.createdTime else c.createdTime;
    c.(createdTime := OrNow(created, now), lastTransitionTime := OrNow(transition, now),
       lastUpdatedTime := OrNow(c.lastUpdatedTime, now))
  }

  function PreserveAll(conditions: seq<Condition>, existing: ConditionTable, now: Time): (kept: seq<Condition>)
    ensures |kept| == |conditions|
    ensures forall i :: 0 <= i < |kept| ==> kept[i] == Preserve(conditions[i], existing, now)
  {
    seq(|conditions|, i requires 0 <= i < |conditions| => Preserve(conditions[i], existing, now))
  }

  /** Conditions that succeed the stored ones and have all their times are written exactly as computed. */
  lemma PreservationChangesNothing(conditions: seq<Condition>, existing: ConditionTable, now: Time)
    requires forall c :: c in conditions ==> TimesSet(c)
    requires forall c :: c in conditions && c.ctype in existing ==> Succeeds(existing[c.ctype], c)
    ensures PreserveAll(conditions, existing, now) == conditions
  {
    forall i | 0 <= i < |conditions| ensures Preserve(conditions[i], existing, now) == conditions[i] {
      assert conditions[i] in conditions;
    }
  }

  /** One group of the count query: a surviving source, one of its reference types, and what remains of it. */
  datatype ExternalReferenceCount = ExternalReferenceCount(source: Id, sourceKind: Kind, refType: string,
                                                           remaining: nat)

  ghost predicate Counts(s: State, doomed: set<Id>, count: ExternalReferenceCount) {
    && count.source in s.rows && Affected(s, doomed, count.source, count.refType)
    && count.sourceKind == s.rows[count.source].kind
    && count.remaining == |Remaining(s, doomed, count.source, count.refType)|
  }

  ghost predicate Ascending(list: seq<Id>) {
    forall i, j :: 0 <= i < j < |list| ==> list[i] < list[j]
  }

  lemma AscendingMore(list: seq<Id>, c: Id)
    requires Ascending(list) && forall d :: d in list ==> d < c
    ensures Ascending(list + [c]) && Members(list + [c]) == Members(list) + {c}
  {
    forall i, j | 0 <= i < j < |list + [c]| ensures (list + [c])[i] < (list + [c])[j] { assert list[i] in list; }
  }

  predicate IsLeast(ids: set<Id>, c: Id) {
    c in ids && forall d :: d in ids ==> c <= d
  }

  lemma {:induction false} LeastExists(ids: set<Id>)
    requires ids != {}
    ensures exists c :: IsLeast(ids, c)
    decreases ids
  {
    var c :| c in ids;
    var rest := ids - {c};
    if rest == {} {
      forall d | d in ids ensures d == c { assert d !in rest; }
      assert IsLeast(ids, c);
    } else {
      LeastExists(rest);
      var least :| IsLeast(rest, least);
      LeastOfBoth(ids, c, least);
    }
  }

  lemma LeastOfBoth(ids: set<Id>, c: Id, least: Id)
    requires c in ids && IsLeast(ids - {c}, least)
    ensures IsLeast(ids, if c < least then c else least)
  {
    forall d | d in ids ensures c <= d || least <= d { assert d == c || d in ids - {c}; }
  }

  class Database {
    var tables: State
    var open: Option<State>

    constructor ()
      ensures tables == EMPTY && open.None?
    {
      tables, open := EMPTY, None;
    }

    // ------------------------------------------------------------------ transactions

    /** Fails inside an open transaction: nesting is not supported. */
    method Begin() returns (ok: bool)
      modifies this`open
      ensures ok == old(open).None?
      ensures open == if ok then Some(tables) else old(open)
    {
      if open.Some? { return false; }
      open := Some(tables);
      return true;
    }

    method Commit()
      requires open.Some?
      modifies this`open
      ensures open.None?
    {
      open := None;
    }

    method Rollback()
      requires open.Some?
      modifies this
      ensures open.None? && tables == old(open).value
    {
      tables, open := open.value, None;
    }

    // ------------------------------------------------------------------ resources

    /** The stored conditions in whatever order the query yields them. */
    method LoadConditions(id: Id) returns (conditions: seq<Condition>)
      requires TableKeyed(ConditionsOf(tables, id))
      ensures ByType(conditions) == ConditionsOf(tables, id) && TypesDistinct(conditions)
    {
      conditions := [];
      var stored := ConditionsOf(tables, id);
      var rest := stored.Keys;
      while rest != {}
        invariant rest <= stored.Keys
        invariant ByType(conditions) == map t | t in stored && t !in rest :: stored[t]
        invariant TypesDistinct(conditions)
        invariant forall i :: 0 <= i < |conditions| ==> conditions[i].ctype in stored.Keys - rest
        decreases rest
      {
        var t :| t in rest;
        assert (conditions + [stored[t]])[..|conditions|] == conditions;
        conditions := conditions + [stored[t]];
        rest := rest - {t};
      }
    }

    method GetForUpdate(kind: Kind, id: Id) returns (r: Resource?)
      requires TableKeyed(ConditionsOf(tables, id))
      ensures r == null <==> !(id in tables.rows && tables.rows[id].kind == kind)
      ensures r != null ==> fresh(r) && Loaded(r, id, tables.rows[id], ConditionsOf(tables, id))
    {
      if id !in tables.rows || tables.rows[id].kind != kind { return null; }
      var conditions := LoadConditions(id);
      r := new Resource(id, tables.rows[id], conditions);
    }

    /** `GetForUpdate` restricted to children of an existing owner of the given kind. */
    method GetForUpdateByOwner(kind: Kind, id: Id, ownerKind: Kind, owner: Id) returns (r: Resource?)
      requires TableKeyed(ConditionsOf(tables, id))
      ensures r == null <==>
                !(id in tables.rows && tables.rows[id].kind == kind && tables.rows[id].owner == Some(owner) &&
                               owner in tables.rows && tables.rows[owner].kind == ownerKind)
      ensures r != null ==> fresh(r) && Loaded(r, id, tables.rows[id], ConditionsOf(tables, id))
    {
      if owner !in tables.rows || tables.rows[owner].kind != ownerKind { return null; }
      if id !in tables.rows || tables.rows[id].owner != Some(owner) { return null; }
      r := GetForUpdate(kind, id);
    }

    /** The row without its associations. */
    method GetRowForUpdate(kind: Kind, id: Id) returns (row: Option<Row>)
      ensures row == if id in tables.rows && tables.rows[id].kind == kind then Some(tables.rows[id]) else None
    {
      if id !in tables.rows || tables.rows[id].kind != kind { return None; }
      return Some(tables.rows[id]);
    }

    method GetRowForUpdateByOwner(kind: Kind, id: Id, ownerKind: Kind, owner: Id) returns (row: Option<Row>)
      ensures row == if id in tables.rows && tables.rows[id].kind == kind && tables.rows[id].owner == Some(owner) &&
                        owner in tables.rows && tables.rows[owner].kind == ownerKind
                     then Some(tables.rows[id]) else None
    {
      if owner !in tables.rows || tables.rows[owner].kind != ownerKind { return None; }
      if id !in tables.rows || tables.rows[id].owner != Some(owner) { return None; }
      row := GetRowForUpdate(kind, id);
    }

    /** Inserts a row unless a live one of the same kind and owner has its name. */
    method Create(id: Id, row: Row) returns (ok: bool)
      requires row.deletedTime.None?
      modifies this`tables
      ensures ok == !NameTaken(old(tables), row.kind, row.owner, row.name)
      ensures tables ==
              if ok then old(tables).(rows := old(tables).rows[id := row], issued := old(tables).issued + {id})
                        else old(tables)
    {
      ok := !NameTaken(tables, row.kind, row.owner, row.name);
      if ok { tables := tables.(rows := tables.rows[id := row], issued := tables.issued + {id}); }
    }

    /** Writes the in-memory row back; the update hook stamps it. */
    method Save(r: Resource, now: Time)
      modifies this`tables, r`updatedTime
      ensures r.updatedTime == now
      ensures tables == old(tables).(rows := old(tables).rows[r.id := r.Row()])
    {
      r.updatedTime := now;
      tables := tables.(rows := tables.rows[r.id := r.Row()]);
    }

    /** Deletes one row. Its own references and conditions cascade; a reference to it makes the database refuse. */
    method Delete(id: Id) returns (ok: bool)
      modifies this`tables
      ensures ok <==> forall ref :: ref in old(tables).refs ==> ref.target != id
      ensures tables == if ok then WithoutRow(old(tables), id) else old(tables)
    {
      ok := forall ref :: ref in tables.refs ==> ref.target != id;
      if ok {
        tables := tables.(rows := tables.rows - {id}, refs := WithoutSource(tables.refs, id),
                          conditions := tables.conditions - {id});
      }
    }

    /** Deletes the rows of a set at once, under the same foreign keys. */
    method DeleteIDs(ids: set<Id>) returns (ok: bool)
      modifies this`tables
      ensures ok <==> forall ref :: ref in old(tables).refs ==> ref.target !in ids
      ensures tables == if ok then old(tables).(
                          rows := old(tables).rows - ids,
                          refs := (set ref | ref in old(tables).refs && ref.source !in ids),
                          conditions := old(tables).conditions - ids)
                        else old(tables)
    {
      ok := forall ref :: ref in tables.refs ==> ref.target !in ids;
      if ok {
        tables := tables.(rows := tables.rows - ids, refs := (set ref | ref in tables.refs && ref.source !in ids),
                          conditions := tables.conditions - ids);
      }
    }

    method ExistsByOwner(kind: Kind, owner: Id) returns (exists_: bool)
      ensures exists_ <==>
                exists c :: c in tables.rows && IsChild(tables, owner, c) && tables.rows[c].kind == kind &&
                  Live(tables, c)
    {
      exists_ :=
        exists c :: c in tables.rows && IsChild(tables, owner, c) && tables.rows[c].kind == kind && Live(tables, c);
    }

    method ExistsSoftDeletedByOwner(kinds: seq<Kind>, owner: Id) returns (exists_: bool)
      ensures exists_ <==>
                exists c :: c in tables.rows && IsChild(tables, owner, c) && tables.rows[c].kind in kinds &&
                  Deleting(tables, c)
    {
      if |kinds| == 0 { return false; }
      exists_ := exists c ::
        c in tables.rows && IsChild(tables, owner, c) && tables.rows[c].kind in kinds && Deleting(tables, c);
    }

    /** The ids of some rows in ascending order. */
    method InIdOrder(ids: set<Id>) returns (list: seq<Id>)
      ensures Members(list) == ids && Ascending(list)
    {
      list := [];
      var rest := ids;
      while rest != {}
        invariant rest <= ids && Members(list) == ids - rest
        invariant Ascending(list) && forall c, d :: c in list && d in rest ==> c < d
        decreases rest
      {
        LeastExists(rest);
        var c :| c in rest && IsLeast(rest, c);
        AscendingMore(list, c);
        list, rest := list + [c], rest - {c};
      }
    }

    /** The owned rows of a kind in the order of their ids, loaded with their conditions. */
    method FindByKindAndOwnerForUpdate(kind: Kind, owner: Id) returns (items: seq<Resource>)
      requires forall n :: TableKeyed(ConditionsOf(tables, n))
      ensures forall i :: 0 <= i < |items| ==>
                fresh(items[i]) && IsChild(tables, owner, items[i].id) && items[i].kind == kind &&
                Loaded(items[i], items[i].id, tables.rows[items[i].id], ConditionsOf(tables, items[i].id))
      ensures forall i, j :: 0 <= i < j < |items| ==> items[i].id < items[j].id && items[i] != items[j]
      ensures forall c :: IsChild(tables, owner, c) && tables.rows[c].kind == kind ==>
                exists i :: 0 <= i < |items| && items[i].id == c
    {
      var ids := InIdOrder(set c | c in tables.rows && IsChild(tables, owner, c) && tables.rows[c].kind == kind);
      forall i | 0 <= i < |ids| ensures IsChild(tables, owner, ids[i]) && tables.rows[ids[i]].kind == kind {
        assert ids[i] in Members(ids);
      }
      items := [];
      for n := 0 to |ids|
        invariant |items| == n
        invariant forall i :: 0 <= i < n ==>
                    fresh(items[i]) && items[i].id == ids[i] && items[i].kind == kind &&
                    Loaded(items[i], ids[i], tables.rows[ids[i]], ConditionsOf(tables, ids[i]))
        invariant forall i, j :: 0 <= i < j < n ==> items[i] != items[j]
      {
        var conditions := LoadConditions(ids[n]);
        var item := new Resource(ids[n], tables.rows[ids[n]], conditions);
        items := items + [item];
      }
      forall c | IsChild(tables, owner, c) && tables.rows[c].kind == kind
        ensures exists i :: 0 <= i < |items| && items[i].id == c
      {
        assert c in Members(ids);
        var i :| 0 <= i < |ids| && ids[i] == c;
        assert items[i].id == c;
      }
    }

    /** All owned rows in the order of their ids, whatever their kind. */
    method FindChildrenForUpdate(owner: Id) returns (children: seq<Id>)
      ensures forall c :: c in children <==> IsChild(tables, owner, c)
      ensures Ascending(children) && Distinct(children)
    {
      var owned := set c | c in tables.rows && IsChild(tables, owner, c);
      children := InIdOrder(owned);
      forall c ensures c in children <==> IsChild(tables, owner, c) { assert c in Members(children) <==> c in owned; }
    }

    // ------------------------------------------------------------------ references

    /** Replaces the outgoing references; refuses duplicates and missing targets, as the keys of the table do. */
    method ReplaceReferences(source: Id, refs: seq<Reference>) returns (ok: bool)
      requires forall ref :: ref in refs ==> ref.source == source
      modifies this`tables
      ensures ok <==> Distinct(refs) && forall ref :: ref in refs ==> ref.target in tables.rows
      ensures ok ==> tables == old(tables).(refs := WithoutSource(old(tables).refs, source) + Members(refs))
      ensures tables.rows == old(tables).rows
    {
      tables := tables.(refs := WithoutSource(tables.refs, source));
      ok := (forall i, j :: 0 <= i < j < |refs| ==> refs[i] != refs[j]) &&
            forall ref :: ref in refs ==> ref.target in tables.rows;
      if ok { tables := tables.(refs := tables.refs + Members(refs)); }
    }

    /** Live resources that reference `target`. */
    method HasReferencers(target: Id) returns (found: bool)
      ensures found <==> exists ref :: ref in tables.refs && ref.target == target && Live(tables, ref.source)
    {
      found := exists ref :: ref in tables.refs && ref.target == target && Live(tables, ref.source);
    }

    /** What the surviving sources keep of the types that lose references with `ids`, a group per source and type. */
    method FindExternalReferenceCounts(ids: set<Id>) returns (counts: seq<ExternalReferenceCount>)
      requires forall ref :: ref in tables.refs ==> ref.source in tables.rows
      ensures forall c :: c in counts ==> Counts(tables, ids, c)
      ensures forall ref :: ref in tables.refs && Affected(tables, ids, ref.source, ref.refType) ==>
                exists c :: c in counts && c.source == ref.source && c.refType == ref.refType
      ensures forall i, j :: 0 <= i < j < |counts| ==>
                (counts[i].source, counts[i].refType) != (counts[j].source, counts[j].refType)
    {
      counts := [];
      ghost var groups :=
        set ref | ref in tables.refs && ref.source !in ids && ref.target in ids :: (ref.source, ref.refType);
      var rest := set ref | ref in tables.refs && ref.source !in ids && ref.target in ids :: (ref.source, ref.refType);
      while rest != {}
        invariant rest <= groups
        invariant forall c :: c in counts ==> (c.source, c.refType) in groups - rest && Counts(tables, ids, c)
        invariant forall g :: g in groups - rest ==> exists c :: c in counts && c.source == g.0 && c.refType == g.1
        invariant forall i, j :: 0 <= i < j < |counts| ==>
                    (counts[i].source, counts[i].refType) != (counts[j].source, counts[j].refType)
        decreases rest
      {
        var g :| g in rest;
        var count := ExternalReferenceCount(g.0, tables.rows[g.0].kind, g.1, |Remaining(tables, ids, g.0, g.1)|);
        ghost var before, pending := counts, rest;
        counts := counts + [count];
        rest := rest - {g};
        forall h | h in groups - rest ensures exists c :: c in counts && c.source == h.0 && c.refType == h.1 {
          if h == g {
            assert count in counts;
          } else {
            assert h in groups - pending;
            var c :| c in before && c.source == h.0 && c.refType == h.1;
            assert c in counts;
          }
        }
      }
      forall ref | ref in tables.refs && Affected(tables, ids, ref.source, ref.refType)
        ensures exists c :: c in counts && c.source == ref.source && c.refType == ref.refType
      {
        assert (ref.source, ref.refType) in groups - rest;
      }
    }

    method DeleteReferencesByTargets(ids: set<Id>)
      modifies this`tables
      ensures tables == old(tables).(refs := (set ref | ref in old(tables).refs && ref.target !in ids))
    {
      tables := tables.(refs := (set ref | ref in tables.refs && ref.target !in ids));
    }

    // ------------------------------------------------------------------ adapter statuses

    method FindByResource(id: Id) returns (list: seq<AdapterStatus>)
      requires Keyed(ReportsOf(tables, id))
      ensures Lists(list, ReportsOf(tables, id))
    {
      list := [];
      var stored := ReportsOf(tables, id);
      var rest := stored.Keys;
      while rest != {}
        invariant rest <= stored.Keys
        invariant forall r :: r in list ==> r.adapter in stored && stored[r.adapter] == r
        invariant forall name :: name in stored && name !in rest ==> stored[name] in list
        decreases rest
      {
        var name :| name in rest;
        list := list + [stored[name]];
        rest := rest - {name};
      }
    }

    /** The guarded update of an existing row, or the insert of a first one; yields the row as it is stored. */
    method Upsert(id: Id, incoming: AdapterStatus, existing: Option<AdapterStatus>) returns (stored: AdapterStatus)
      requires Lookup(ReportsOf(tables, id), incoming.adapter) == existing
      modifies this`tables
      ensures stored == Upserted(existing, incoming)
      ensures tables == old(tables).(
                statuses := old(tables).statuses[id := ReportsOf(old(tables), id)[incoming.adapter := stored]])
    {
      if existing.Some? {
        var guard := existing.value.observedGeneration < incoming.observedGeneration ||
        (existing.value.observedGeneration == incoming.observedGeneration &&
         existing.value.lastReportTime < incoming.lastReportTime);
        stored := if guard then incoming else existing.value;
      } else {
        stored := incoming;
      }
      tables := tables.(statuses := tables.statuses[id := ReportsOf(tables, id)[incoming.adapter := stored]]);
    }

    method DeleteStatuses(ids: set<Id>)
      modifies this`tables
      ensures tables == old(tables).(statuses := old(tables).statuses - ids)
    {
      tables := tables.(statuses := tables.statuses - ids);
    }

    // ------------------------------------------------------------------ conditions

    /** Overwrites the slice with what the timestamp contract preserves, then replaces all condition rows by it. */
    method UpdateConditions(id: Id, conditions: array<Condition>, now: Time) returns (ok: bool)
      modifies this`tables, conditions
      ensures conditions[..] == PreserveAll(old(conditions[..]), ConditionsOf(old(tables), id), now)
      ensures ok == TypesDistinct(conditions[..])
      ensures ok ==> tables == old(tables).(conditions := old(tables).conditions[id := ByType(conditions[..])])
      ensures !ok ==> tables == old(tables)
    {
      var existing := ConditionsOf(tables, id);
      for i := 0 to conditions.Length
        invariant tables == old(tables)
        invariant forall j :: 0 <= j < i ==> conditions[j] == Preserve(old(conditions[..])[j], existing, now)
        invariant forall j :: i <= j < conditions.Length ==> conditions[j] == old(conditions[..])[j]
      {
        var c := conditions[i];
        if c.ctype in existing {
          var prev := existing[c.ctype];
          if prev.status == c.status { c := c.(lastTransitionTime := prev.lastTransitionTime); }
          c := c.(createdTime := prev.createdTime);
        }
        if c.createdTime == ZERO_TIME { c := c.(createdTime := now); }
        if c.lastTransitionTime == ZERO_TIME { c := c.(lastTransitionTime := now); }
        if c.lastUpdatedTime == ZERO_TIME { c := c.(lastUpdatedTime := now); }
        conditions[i] := c;
      }
      ok := forall i, j :: 0 <= i < j < conditions.Length ==> conditions[i].ctype != conditions[j].ctype;
      if ok { tables := tables.(conditions := tables.conditions[id := ByType(conditions[..])]); }
    }

    method DeleteConditions(id: Id)
      modifies this`tables
      ensures tables == old(tables).(conditions := old(tables).conditions - {id})
    {
      tables := tables.(conditions := tables.conditions - {id});
    }
  }
}
