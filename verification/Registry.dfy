/**
 * The registry of entity kinds: registration, the start-up validation, and the lookups
 * the services make. Validation combines a walk up every ParentKind chain with a
 * three-colour depth-first search over the required (Min > 0) references.
 */
module Registry {
  import opened Common

  datatype Kind = NoKind | Named(name: nat)

  /** `Restrict` and `Cascade` are the two declared policies; the field is a plain string, so others can occur. */
  datatype OnParentDelete = Restrict | Cascade | OtherPolicy(text: string)

  datatype ReferenceDescriptor = ReferenceDescriptor(refType: string, targetKind: Kind, min: int, max: int)

  /** `mappingsAccepted` is what the validator of condition mappings says of the entity, true for one without them. */
  datatype EntityDescriptor = EntityDescriptor(
    kind: Kind, plural: string, parentKind: Kind, onParentDelete: OnParentDelete,
    requiredAdapters: seq<string>, references: seq<ReferenceDescriptor>,
    nameMinLen: int, nameMaxLen: int, mappingsAccepted: bool)

  type Descriptors = map<Kind, EntityDescriptor>

  /** Register files every descriptor under its own Kind. */
  ghost predicate KeyedByKind(descs: Descriptors) {
    forall k :: k in descs ==> descs[k].kind == k
  }

  // ---------------------------------------------------------------------------------------
  // What Validate checks, declaratively
  // ---------------------------------------------------------------------------------------

  ghost predicate ReferencesOk(descs: Descriptors, refs: seq<ReferenceDescriptor>) {
    && (forall i :: 0 <= i < |refs| ==> refs[i].targetKind in descs)
    && (forall i, j :: 0 <= i < j < |refs| ==> refs[i].refType != refs[j].refType)
    && (forall i :: 0 <= i < |refs| ==> !(refs[i].max > 0 && refs[i].max < refs[i].min))
  }

  ghost predicate EntryOk(descs: Descriptors, d: EntityDescriptor) {
    && d.kind != NoKind
    && d.plural != ""
    && (d.parentKind != NoKind ==> d.parentKind in descs)
    && ReferencesOk(descs, d.references)
    && !(d.nameMaxLen > 0 && d.nameMinLen > d.nameMaxLen)
  }

  ghost predicate PluralsDistinct(descs: Descriptors) {
    forall k, l :: k in descs && l in descs && k != l ==> descs[k].plural != descs[l].plural
  }

  /** The checks of the first loop, but for the walk up the ParentKind chain. */
  ghost predicate EntriesOk(descs: Descriptors) {
    && (forall k :: k in descs ==> EntryOk(descs, descs[k]))
    && PluralsDistinct(descs)
  }

  /** Every check but the two cycle checks. */
  ghost predicate BasicOk(descs: Descriptors) {
    EntriesOk(descs) && forall k :: k in descs ==> descs[k].mappingsAccepted
  }

  ghost predicate ParentEdge(descs: Descriptors, a: Kind, b: Kind) {
    a in descs && b != NoKind && descs[a].parentKind == b
  }

  /** `a` cannot be created without a resource of kind `b`. */
  ghost predicate RequiredEdge(descs: Descriptors, a: Kind, b: Kind) {
    a in descs && exists r :: r in descs[a].references && r.min > 0 && r.targetKind == b
  }

  ghost predicate TargetsRegistered(descs: Descriptors) {
    forall a, b {:trigger RequiredEdge(descs, a, b)} :: RequiredEdge(descs, a, b) ==> b in descs
  }

  ghost predicate ParentCycle(descs: Descriptors, p: seq<Kind>) {
    && |p| >= 2 && p[0] == p[|p| - 1]
    && forall i :: 0 <= i < |p| - 1 ==> ParentEdge(descs, p[i], p[i + 1])
  }

  /** `k` participates in a cycle: walking up from it comes back to it. */
  ghost predicate OnParentCycle(descs: Descriptors, k: Kind) {
    exists p :: ParentCycle(descs, p) && p[0] == k
  }

  /** The kind met after `n` steps up from `k`. */
  function Ancestor(descs: Descriptors, k: Kind, n: nat): Kind
    decreases n
  {
    if n == 0 then k
    else if k == NoKind || k !in descs then NoKind
    else Ancestor(descs, descs[k].parentKind, n - 1)
  }

  /** At most as many steps up as there are kinds lead from `k` back to it. */
  predicate Returns(descs: Descriptors, k: Kind) {
    exists n :: 1 <= n <= |descs| && Ancestor(descs, k, n) == k
  }

  ghost predicate RequiredStep(descs: Descriptors, p: seq<Kind>, i: nat)
    requires i + 1 < |p|
  {
    RequiredEdge(descs, p[i], p[i + 1])
  }

  ghost predicate RequiredPath(descs: Descriptors, p: seq<Kind>) {
    forall i {:trigger RequiredStep(descs, p, i)} :: 0 <= i < |p| - 1 ==> RequiredStep(descs, p, i)
  }

  ghost predicate RequiredCycle(descs: Descriptors, p: seq<Kind>) {
    |p| >= 2 && p[0] == p[|p| - 1] && RequiredPath(descs, p)
  }

  ghost predicate NoParentCycle(descs: Descriptors) {
    forall p :: !ParentCycle(descs, p)
  }

  ghost predicate NoRequiredCycle(descs: Descriptors) {
    forall p :: !RequiredCycle(descs, p)
  }

  // ---------------------------------------------------------------------------------------
  // Depth: what an acyclic ParentKind chain buys
  // ---------------------------------------------------------------------------------------

  /** Following ParentKind from `k` leaves the registry after exactly `n` steps. */
  ghost predicate RootedIn(descs: Descriptors, k: Kind, n: nat)
    decreases n
  {
    if k == NoKind || k !in descs then n == 0 else n > 0 && RootedIn(descs, descs[k].parentKind, n - 1)
  }

  ghost predicate Rooted(descs: Descriptors, k: Kind) {
    exists n: nat :: RootedIn(descs, k, n)
  }

  ghost predicate AllRooted(descs: Descriptors) {
    forall k :: k in descs ==> Rooted(descs, k)
  }

  lemma {:induction false} RootedInUnique(descs: Descriptors, k: Kind, n: nat, m: nat)
    requires RootedIn(descs, k, n) && RootedIn(descs, k, m)
    ensures n == m
    decreases n
  {
    if n > 0 { RootedInUnique(descs, descs[k].parentKind, n - 1, m - 1); }
  }

  /** The number of kinds from `k` up to its root. */
  ghost function Depth(descs: Descriptors, k: Kind): nat
    requires Rooted(descs, k)
  {
    var n: nat :| RootedIn(descs, k, n);
    n
  }

  lemma DepthOfChild(descs: Descriptors, k: Kind)
    requires Rooted(descs, k) && k in descs && k != NoKind
    ensures Rooted(descs, descs[k].parentKind)
    ensures Depth(descs, k) == Depth(descs, descs[k].parentKind) + 1
  {
    var n := Depth(descs, k);
    var up := descs[k].parentKind;
    assert RootedIn(descs, up, n - 1);
    RootedInUnique(descs, up, n - 1, Depth(descs, up));
  }

  /** A bound on the depths of a finite set of kinds, so that recursion down the tree has a measure. */
  ghost function DepthBound(descs: Descriptors, ks: set<Kind>): (bound: nat)
    requires forall k :: k in ks ==> Rooted(descs, k)
    ensures forall k :: k in ks ==> Depth(descs, k) <= bound
  {
    if ks == {} then 0
    else
      var k :| k in ks;
      Max(Depth(descs, k), DepthBound(descs, ks - {k}))
  }

  /** Following a chain that is rooted in `n` steps for `i` steps leaves `n - i`. */
  lemma {:induction false} RootedAlong(descs: Descriptors, p: seq<Kind>, n: nat, i: nat)
    requires i < |p|
    requires forall j :: 0 <= j < |p| - 1 ==> ParentEdge(descs, p[j], p[j + 1])
    requires |p| > 0 && p[0] != NoKind && RootedIn(descs, p[0], n)
    ensures i <= n && RootedIn(descs, p[i], n - i)
  {
    if i > 0 {
      RootedAlong(descs, p, n, i - 1);
      assert ParentEdge(descs, p[i - 1], p[i - 1 + 1]);
      if i > 1 { assert ParentEdge(descs, p[i - 2], p[i - 2 + 1]); }
    }
  }

  /** A kind on a ParentKind cycle has no root. */
  lemma CycleIsNotRooted(descs: Descriptors, p: seq<Kind>)
    requires ParentCycle(descs, p) && p[0] != NoKind
    ensures !Rooted(descs, p[0])
  {
    if n: nat :| RootedIn(descs, p[0], n) {
      RootedAlong(descs, p, n, |p| - 1);
      RootedInUnique(descs, p[0], n, n - (|p| - 1));
    }
  }

  lemma RootedMeansNoCycle(descs: Descriptors)
    requires AllRooted(descs)
    ensures NoParentCycle(descs)
  {
    forall p ensures !ParentCycle(descs, p) {
      if ParentCycle(descs, p) {
        assert ParentEdge(descs, p[0], p[0 + 1]);
        assert ParentEdge(descs, p[|p| - 2], p[|p| - 2 + 1]);
        CycleIsNotRooted(descs, p);
      }
    }
  }

  // ---------------------------------------------------------------------------------------
  // Ranks: what an acyclic required-reference graph buys
  // ---------------------------------------------------------------------------------------

  /** `rank` decreases along every required reference of the kinds it covers. */
  ghost predicate Ranks(descs: Descriptors, rank: map<Kind, nat>) {
    forall a, b {:trigger RequiredEdge(descs, a, b)} ::
      a in rank && RequiredEdge(descs, a, b) ==> b in rank && rank[b] < rank[a]
  }

  /** All kinds that `kind` requires are ranked. */
  ghost predicate TargetsRanked(descs: Descriptors, kind: Kind, rank: map<Kind, nat>) {
    forall b {:trigger RequiredEdge(descs, kind, b)} :: RequiredEdge(descs, kind, b) ==> b in rank
  }

  lemma {:induction false} RankFallsAlong(descs: Descriptors, rank: map<Kind, nat>, p: seq<Kind>, i: nat)
    requires Ranks(descs, rank) && RequiredPath(descs, p) && 0 < i < |p| && p[0] in rank
    ensures p[i] in rank && rank[p[i]] < rank[p[0]]
  {
    if i > 1 { RankFallsAlong(descs, rank, p, i - 1); }
    assert RequiredStep(descs, p, i - 1);
  }

  /** Creation order: a rank over all kinds exists only if no kinds require each other in a circle. */
  lemma RankMeansNoRequiredCycle(descs: Descriptors, rank: map<Kind, nat>)
    requires Ranks(descs, rank) && descs.Keys <= rank.Keys
    ensures NoRequiredCycle(descs)
  {
    forall p ensures !RequiredCycle(descs, p) {
      if RequiredCycle(descs, p) {
        assert RequiredStep(descs, p, 0);
        RankFallsAlong(descs, rank, p, |p| - 1);
      }
    }
  }

  // ---------------------------------------------------------------------------------------
  // The registry
  // ---------------------------------------------------------------------------------------

  /** How Validate ends: it returns, or it panics with one of its messages. */
  datatype Verdict =
    | Valid
    | Rejected(message: string)
    | OwnershipCycle(kind: Kind)
    | CircularRequired(cycle: seq<Kind>)

  /** The colours and the stack shared by the activations of the search closure. */
  class Search {
    var color: map<Kind, int>
    var path: seq<Kind>
    ghost var rank: map<Kind, nat>
    ghost var next: nat  // above all ranks handed out

    constructor ()
      ensures color == map[] && path == [] && rank == map[]
    {
      color, path, rank, next := map[], [], map[], 0;
    }

    /** Go's zero value for a missing map entry. */
    function Color(k: Kind): int
      reads this
    {
      if k in color then color[k] else 0
    }

    ghost predicate Consistent(descs: Descriptors)
      reads this
    {
      SearchOk(descs, color, path, rank, next)
    }
  }

  /** Grey kinds are the stack, which is a path of required references; black kinds are ranked. */
  ghost predicate SearchOk(
    descs: Descriptors, color: map<Kind, int>, path: seq<Kind>, rank: map<Kind, nat>, next: nat)
  {
    && color.Keys <= descs.Keys
    && (forall k :: k in color ==> color[k] == if k in rank then 2 else 1)
    && rank.Keys <= color.Keys
    && (forall k :: k in path <==> k in color && k !in rank)
    && RequiredPath(descs, path)
    && Ranks(descs, rank)
    && (forall k :: k in rank ==> rank[k] < next)
  }

  lemma PushKeepsOk(
    descs: Descriptors, color: map<Kind, int>, path: seq<Kind>, rank: map<Kind, nat>, next: nat, kind: Kind)
    requires SearchOk(descs, color, path, rank, next) && kind in descs && kind !in color
    requires path == [] || RequiredEdge(descs, path[|path| - 1], kind)
    ensures SearchOk(descs, color[kind := 1], path + [kind], rank, next)
  {
    forall i | 0 <= i < |path| ensures RequiredStep(descs, path + [kind], i) {
      if i < |path| - 1 { assert RequiredStep(descs, path, i); }
    }
  }

  /** Once all targets of `kind` are ranked, `kind` can be ranked above everything so far. */
  lemma RankNext(descs: Descriptors, rank: map<Kind, nat>, next: nat, kind: Kind)
    requires Ranks(descs, rank) && forall k :: k in rank ==> rank[k] < next
    requires kind in descs && kind !in rank && TargetsRanked(descs, kind, rank)
    ensures Ranks(descs, rank[kind := next])
  {
  }

  lemma PopKeepsOk(
    descs: Descriptors, color: map<Kind, int>, path: seq<Kind>, rank: map<Kind, nat>, next: nat, kind: Kind)
    requires SearchOk(descs, color, path + [kind], rank, next) && kind !in path && kind in descs
    requires TargetsRanked(descs, kind, rank)
    ensures SearchOk(descs, color[kind := 2], path, rank[kind := next], next + 1)
  {
    assert kind in path + [kind];
    RankNext(descs, rank, next, kind);
    forall k ensures k in path <==> k in color[kind := 2] && k !in rank[kind := next] {
      assert k in path + [kind] <==> k in path || k == kind;
    }
    forall i | 0 <= i < |path| - 1 ensures RequiredStep(descs, path, i) {
      assert RequiredStep(descs, path + [kind], i);
    }
  }

  /** Descriptors whose ParentKind is `parentKind`, in whatever order the map yields them. */
  method ChildrenOf(descriptors: Descriptors, parentKind: Kind) returns (children: seq<EntityDescriptor>)
    requires KeyedByKind(descriptors)
    ensures forall d :: d in children <==>
              d.kind in descriptors && descriptors[d.kind] == d && d.parentKind == parentKind
    ensures Distinct(children)
  {
    children := [];
    var rest := descriptors.Keys;
    while rest != {}
      invariant rest <= descriptors.Keys
      invariant forall d :: d in children <==>
                            d.kind in descriptors && d.kind !in rest && descriptors[d.kind] == d &&
                            d.parentKind == parentKind
      invariant Distinct(children)
      decreases rest
    {
      var k :| k in rest;
      var d := descriptors[k];
      if d.parentKind == parentKind { children := children + [d]; }
      rest := rest - {k};
    }
  }

  class Registry {
    var descriptors: Descriptors

    constructor ()
      ensures descriptors == map[]
    {
      descriptors := map[];
    }

    method Register(d: EntityDescriptor) returns (accepted: bool)
      requires KeyedByKind(descriptors)
      modifies this
      ensures accepted <==> d.kind != NoKind && d.plural != "" && d.kind !in old(descriptors)
      ensures descriptors == if accepted then old(descriptors)[d.kind := d] else old(descriptors)
      ensures KeyedByKind(descriptors)
    {
      if d.kind == NoKind { return false; }
      if d.plural == "" { return false; }
      if d.kind in descriptors { return false; }
      descriptors := descriptors[d.kind := d];
      return true;
    }

    /** The checks on one entity's reference descriptors. */
    method ReferencesAccepted(d: EntityDescriptor) returns (ok: bool)
      ensures ok <==> ReferencesOk(descriptors, d.references)
    {
      var refTypes: set<string> := {};
      for i := 0 to |d.references|
        invariant forall t :: t in refTypes <==> exists j :: 0 <= j < i && d.references[j].refType == t
        invariant ReferencesOk(descriptors, d.references[..i])
      {
        var ref := d.references[i];
        assert d.references[..i + 1] == d.references[..i] + [ref];
        if ref.targetKind !in descriptors {
          assert d.references[i].targetKind !in descriptors;
          return false;
        }
        if ref.refType in refTypes {
          var j :| 0 <= j < i && d.references[j].refType == ref.refType;
          assert d.references[j].refType == d.references[i].refType;
          return false;
        }
        refTypes := refTypes + {ref.refType};
        if ref.max > 0 && ref.max < ref.min {
          assert d.references[i].max > 0 && d.references[i].max < d.references[i].min;
          return false;
        }
      }
      assert d.references[..|d.references|] == d.references;
      return true;
    }

    /**
     * The walk from `d` up its ParentKind chain; `looped` when it meets a kind for the second time. That kind is on the
     * cycle; `d` itself, which the message names, is only when it is the one that was met again.
     */
    method WalkParents(d: EntityDescriptor) returns (looped: bool, met: Kind)
      requires d.kind in descriptors && descriptors[d.kind] == d && d.parentKind != NoKind && d.kind != NoKind
      ensures looped ==> OnParentCycle(descriptors, met) && (OnParentCycle(descriptors, d.kind) <==> met == d.kind)
      ensures looped ==> (OnParentCycle(descriptors, d.kind) <==> Returns(descriptors, d.kind))
      ensures looped ==> exists p :: ParentCycle(descriptors, p)
      ensures !looped ==> Rooted(descriptors, d.kind)
      ensures looped <==> !Rooted(descriptors, d.kind)
    {
      var visited := {d.kind};
      var cur := d.parentKind;
      ghost var chain := [d.kind];
      while cur != NoKind
        invariant Climbed(descriptors, chain, visited, cur) && chain[0] == d.kind
        decreases cur != NoKind, descriptors.Keys - visited, chain[|chain| - 1] in descriptors
      {
        if cur in visited {
          SubsetSize(visited, descriptors.Keys);
          LoopFound(descriptors, chain, cur);
          return true, cur;
        }
        var next := if cur in descriptors then descriptors[cur].parentKind else NoKind;
        OneMoreParent(descriptors, chain, visited, cur, next);
        visited := visited + {cur};
        chain := chain + [cur];
        cur := next;
      }
      ChainEnds(descriptors, chain, 0);
      return false, NoKind;
    }

    /** The part of the stack from `target` on, closed by `target`. */
    method CircleAt(s: Search, target: Kind) returns (circle: seq<Kind>)
      requires s.Consistent(descriptors) && target in s.path
      requires RequiredEdge(descriptors, s.path[|s.path| - 1], target)
      ensures RequiredCycle(descriptors, circle)
    {
      var start := 0;
      while start < |s.path| && s.path[start] != target
        invariant start <= |s.path| && target !in s.path[..start]
      {
        start := start + 1;
      }
      CloseCircle(descriptors, s.path, start, target);
      return s.path[start..] + [target];
    }

    /** One activation of the search: finishes `kind`, or returns the circle it closed. */
    method Visit(s: Search, kind: Kind) returns (circle: seq<Kind>)
      requires TargetsRegistered(descriptors)
      requires s.Consistent(descriptors) && kind in descriptors && kind !in s.color
      requires s.path == [] || RequiredEdge(descriptors, s.path[|s.path| - 1], kind)
      modifies s
      ensures circle != [] ==> RequiredCycle(descriptors, circle)
      ensures circle == [] ==> s.Consistent(descriptors) && s.path == old(s.path) && kind in s.rank
      ensures circle == [] ==> FurtherOn(old(s.color), old(s.rank), s.color, s.rank)
      decreases descriptors.Keys - s.color.Keys, 0
    {
      PushKeepsOk(descriptors, s.color, s.path, s.rank, s.next, kind);
      ghost var below := s.path;
      s.color, s.path := s.color[kind := 1], s.path + [kind];
      assert kind in descriptors.Keys - old(s.color.Keys) && kind !in descriptors.Keys - s.color.Keys;
      circle := VisitTargets(s, kind, descriptors[kind].references);
      if circle != [] { return; }
      PopKeepsOk(descriptors, s.color, below, s.rank, s.next, kind);
      assert s.path[..|s.path| - 1] == below;
      s.path := s.path[..|s.path| - 1];
      s.color, s.rank, s.next := s.color[kind := 2], s.rank[kind := s.next], s.next + 1;
    }

    /** The loop of an activation over the references of `kind`, the top of the stack. */
    method VisitTargets(s: Search, kind: Kind, refs: seq<ReferenceDescriptor>) returns (circle: seq<Kind>)
      requires TargetsRegistered(descriptors) && kind in descriptors && refs == descriptors[kind].references
      requires s.Consistent(descriptors) && s.path != [] && s.path[|s.path| - 1] == kind
      modifies s
      ensures circle != [] ==> RequiredCycle(descriptors, circle)
      ensures circle == [] ==> s.Consistent(descriptors) && s.path == old(s.path)
      ensures circle == [] ==> TargetsRanked(descriptors, kind, s.rank)
      ensures circle == [] ==> FurtherOn(old(s.color), old(s.rank), s.color, s.rank)
      decreases descriptors.Keys - s.color.Keys, 2
    {
      ghost var stack, color, rank := s.path, s.color, s.rank;
      for i := 0 to |refs|
        invariant s.Consistent(descriptors) && s.path == stack && FurtherOn(color, rank, s.color, s.rank)
        invariant FirstRanked(refs, i, s.rank)
      {
        if refs[i].min <= 0 {
          OneMoreRanked(refs, i, s.rank, s.rank);
          continue;
        }
        RequiredTargetIsEdge(descriptors, kind, i);
        ghost var ranked := s.rank;
        circle := VisitTarget(s, kind, refs[i].targetKind);
        if circle != [] { return; }
        OneMoreRanked(refs, i, ranked, s.rank);
      }
      AllRanked(descriptors, kind, s.rank);
      circle := [];
    }

    /** The three colours of a required target: a grey one closes a circle, a white one is visited. */
    method VisitTarget(s: Search, kind: Kind, target: Kind) returns (circle: seq<Kind>)
      requires TargetsRegistered(descriptors) && target in descriptors && RequiredEdge(descriptors, kind, target)
      requires s.Consistent(descriptors) && s.path != [] && s.path[|s.path| - 1] == kind
      modifies s
      ensures circle != [] ==> RequiredCycle(descriptors, circle)
      ensures circle == [] ==> s.Consistent(descriptors) && s.path == old(s.path) && target in s.rank
      ensures circle == [] ==> FurtherOn(old(s.color), old(s.rank), s.color, s.rank)
      decreases descriptors.Keys - s.color.Keys, 1
    {
      if s.Color(target) == 1 {
        circle := CircleAt(s, target);
      } else if s.Color(target) == 0 {
        circle := Visit(s, target);
      } else {
        circle := [];
      }
    }

    /** The checks of the loop over all descriptors: the single-entry checks, the plurals and the parent chains. */
    method CheckEntries() returns (verdict: Verdict)
      requires KeyedByKind(descriptors)
      ensures verdict.Valid? || verdict.Rejected? || verdict.OwnershipCycle?
      ensures verdict.Valid? ==> EntriesOk(descriptors) && AllRooted(descriptors)
      ensures verdict.Rejected? ==> !EntriesOk(descriptors)
      ensures verdict.OwnershipCycle? ==>
                verdict.kind in descriptors && !Rooted(descriptors, verdict.kind) && !NoParentCycle(descriptors) &&
                (OnParentCycle(descriptors, verdict.kind) <==> Returns(descriptors, verdict.kind))
    {
      var plurals: map<string, Kind> := map[];
      var rest := descriptors.Keys;
      while rest != {}
        invariant rest <= descriptors.Keys
        invariant Passed(descriptors, descriptors.Keys - rest, plurals)
        decreases rest
      {
        var k :| k in rest;
        var d := descriptors[k];
        assert d.kind == k;
        if d.kind == NoKind || d.plural == "" { return Rejected("empty kind or plural"); }
        if d.parentKind != NoKind {
          if d.parentKind !in descriptors { return Rejected("unregistered parent kind"); }
          var looped, met := WalkParents(d);
          if looped { return OwnershipCycle(d.kind); }
        } else {
          assert RootedIn(descriptors, NoKind, 0);
          assert RootedIn(descriptors, k, 1);
        }
        if d.plural in plurals {
          assert descriptors[plurals[d.plural]].plural == descriptors[k].plural;
          return Rejected("duplicate plural");
        }
        ghost var before := plurals;
        plurals := plurals[d.plural := d.kind];
        var refsOk := ReferencesAccepted(d);
        if !refsOk { return Rejected("invalid reference descriptors"); }
        if d.nameMaxLen > 0 && d.nameMinLen > d.nameMaxLen { return Rejected("NameMaxLen must be >= NameMinLen"); }
        OneMorePassed(descriptors, descriptors.Keys - rest, before, k);
        rest := rest - {k};
        assert descriptors.Keys - rest == descriptors.Keys - (rest + {k}) + {k};
      }
      assert descriptors.Keys - rest == descriptors.Keys;
      return Valid;
    }

    /** The loop over the condition mappings, whose validator is a parameter here. */
    method CheckMappings() returns (ok: bool)
      ensures ok <==> forall k :: k in descriptors ==> descriptors[k].mappingsAccepted
    {
      var rest := descriptors.Keys;
      while rest != {}
        invariant rest <= descriptors.Keys
        invariant forall k :: k in descriptors.Keys - rest ==> descriptors[k].mappingsAccepted
        decreases rest
      {
        var k :| k in rest;
        if !descriptors[k].mappingsAccepted { return false; }
        rest := rest - {k};
      }
      assert forall k :: k in descriptors ==> k in descriptors.Keys - rest;
      return true;
    }

    /** The search started from every kind that is still white. */
    method SearchAll() returns (circle: seq<Kind>, ghost rank: map<Kind, nat>)
      requires TargetsRegistered(descriptors)
      ensures circle != [] ==> RequiredCycle(descriptors, circle)
      ensures circle == [] ==> Ranks(descriptors, rank) && rank.Keys == descriptors.Keys
    {
      var s := new Search();
      var rest := descriptors.Keys;
      while rest != {}
        invariant rest <= descriptors.Keys
        invariant s.Consistent(descriptors) && s.path == []
        invariant descriptors.Keys - rest <= s.rank.Keys
        decreases rest
      {
        var k :| k in rest;
        if s.Color(k) == 0 {
          circle := Visit(s, k);
          if circle != [] { return circle, map[]; }
        } else {
          assert k !in s.path;
        }
        rest := rest - {k};
      }
      return [], s.rank;
    }

    /** Returns normally exactly on registries that pass every check and have neither kind of cycle. */
    method Validate() returns (verdict: Verdict)
      requires KeyedByKind(descriptors)
      ensures verdict.Valid? <==> BasicOk(descriptors) && NoParentCycle(descriptors) && NoRequiredCycle(descriptors)
      ensures verdict.Valid? <==> Sound(descriptors) && Layered(descriptors) && Creatable(descriptors)
      ensures verdict.Valid? ==> AllRooted(descriptors)
      ensures verdict.Valid? ==> exists rank :: Ranks(descriptors, rank) && rank.Keys == descriptors.Keys
      ensures verdict.OwnershipCycle? ==> verdict.kind in descriptors && !Rooted(descriptors, verdict.kind)
      ensures verdict.OwnershipCycle? ==>
                (OnParentCycle(descriptors, verdict.kind) <==> Returns(descriptors, verdict.kind))
      ensures verdict.CircularRequired? ==> RequiredCycle(descriptors, verdict.cycle)
    {
      SoundMeans(descriptors);
      LayeredMeansNoCycle(descriptors);
      CreatableMeansNoCycle(descriptors);
      verdict := CheckEntries();
      if verdict.Valid? {
        RootedMeansLayered(descriptors);
        var mapped := CheckMappings();
        if !mapped { return Rejected("invalid conditions"); }
        RootedMeansNoCycle(descriptors);
        EntriesRegisterTargets(descriptors);
        var circle, rank := SearchAll();
        if circle != [] { return CircularRequired(circle); }
        RankMeansNoRequiredCycle(descriptors, rank);
        RankMeansCreatable(descriptors, rank);
      }
    }
  }

  // ---------------------------------------------------------------------------------------
  // What a valid registry is good for
  // ---------------------------------------------------------------------------------------

  /** Some number of references is within Min and Max. */
  ghost predicate WithinBounds(rd: ReferenceDescriptor, n: int) {
    rd.min <= n && (rd.max > 0 ==> n <= rd.max)
  }

  /** Some length of a name is within the limits. */
  ghost predicate WithinLimits(d: EntityDescriptor, n: int) {
    d.nameMinLen <= n && (d.nameMaxLen > 0 ==> n <= d.nameMaxLen)
  }

  /**
   * Kinds are told apart by their plurals; their references exist, are told apart, and can be met; so can name limits.
   */
  ghost predicate SoundEntry(descs: Descriptors, k: Kind)
    requires k in descs
  {
    var d := descs[k];
    && k != NoKind && d.plural != "" && (d.parentKind == NoKind || d.parentKind in descs) && d.mappingsAccepted
    && (forall l :: l in descs && descs[l].plural == d.plural ==> l == k)
    && (forall rd :: rd in d.references ==> rd.targetKind in descs && exists n :: WithinBounds(rd, n))
    && (forall i, j :: 0 <= i < |d.references| && 0 <= j < |d.references| && i != j ==>
          d.references[i].refType != d.references[j].refType)
    && exists n :: WithinLimits(d, n)
  }

  ghost predicate Sound(descs: Descriptors) {
    forall k {:trigger SoundEntry(descs, k)} :: k in descs ==> SoundEntry(descs, k)
  }

  /** Every kind lies strictly below its parent. */
  ghost predicate IsDepth(descs: Descriptors, depth: map<Kind, nat>) {
    forall k :: k in descs ==>
      k in depth &&
      (descs[k].parentKind in descs ==> descs[k].parentKind in depth && depth[descs[k].parentKind] < depth[k])
  }

  ghost predicate Layered(descs: Descriptors) {
    exists depth :: IsDepth(descs, depth)
  }

  /** Created in this order, every kind finds the kinds that it requires at least one of. */
  ghost predicate IsCreationOrder(descs: Descriptors, rank: map<Kind, nat>) {
    && descs.Keys <= rank.Keys
    && forall k, rd :: k in descs && rd in descs[k].references && rd.min > 0 ==>
         rd.targetKind in rank && rank[rd.targetKind] < rank[k]
  }

  ghost predicate Creatable(descs: Descriptors) {
    exists rank :: IsCreationOrder(descs, rank)
  }

  lemma SoundMeans(descs: Descriptors)
    requires KeyedByKind(descs)
    ensures BasicOk(descs) <==> Sound(descs)
  {
    forall k | k in descs
      ensures SoundEntry(descs, k) <==>
              && EntryOk(descs, descs[k]) && descs[k].mappingsAccepted
              && (forall l :: l in descs && l != k ==> descs[l].plural != descs[k].plural)
    {
      SoundEntryMeans(descs, k);
    }
  }

  lemma SoundEntryMeans(descs: Descriptors, k: Kind)
    requires k in descs && descs[k].kind == k
    ensures SoundEntry(descs, k) <==>
            && EntryOk(descs, descs[k]) && descs[k].mappingsAccepted
            && (forall l :: l in descs && l != k ==> descs[l].plural != descs[k].plural)
  {
    var d := descs[k];
    assert WithinLimits(d, d.nameMinLen) <==> !(d.nameMaxLen > 0 && d.nameMinLen > d.nameMaxLen);
    forall rd: ReferenceDescriptor ensures (exists n :: WithinBounds(rd, n)) <==> !(rd.max > 0 && rd.max < rd.min) {
      assert WithinBounds(rd, rd.min) <==> !(rd.max > 0 && rd.max < rd.min);
    }
    assert forall i :: 0 <= i < |d.references| ==> d.references[i] in d.references;
  }

  lemma {:induction false} DepthFallsAlong(descs: Descriptors, depth: map<Kind, nat>, p: seq<Kind>, i: nat)
    requires IsDepth(descs, depth) && ParentCycle(descs, p) && 0 < i < |p|
    ensures p[0] in depth && p[i] in depth && depth[p[i]] < depth[p[0]]
  {
    assert ParentEdge(descs, p[i - 1], p[i - 1 + 1]);
    assert i < |p| - 1 ==> ParentEdge(descs, p[i], p[i + 1]);
    assert ParentEdge(descs, p[0], p[0 + 1]);
    if i > 1 { DepthFallsAlong(descs, depth, p, i - 1); }
  }

  lemma LayeredMeansNoCycle(descs: Descriptors)
    ensures Layered(descs) ==> NoParentCycle(descs)
  {
    if depth :| IsDepth(descs, depth) {
      forall p ensures !ParentCycle(descs, p) {
        if ParentCycle(descs, p) { DepthFallsAlong(descs, depth, p, |p| - 1); }
      }
    }
  }

  lemma RootedMeansLayered(descs: Descriptors)
    requires AllRooted(descs) && KeyedByKind(descs) && EntriesOk(descs)
    ensures Layered(descs)
  {
    var depth := map k | k in descs :: Depth(descs, k);
    forall k | k in descs && descs[k].parentKind in descs ensures depth[descs[k].parentKind] < depth[k] {
      assert EntryOk(descs, descs[k]);
      DepthOfChild(descs, k);
    }
    assert IsDepth(descs, depth);
  }

  lemma CreatableMeansNoCycle(descs: Descriptors)
    ensures Creatable(descs) ==> NoRequiredCycle(descs)
  {
    if rank :| IsCreationOrder(descs, rank) {
      assert Ranks(descs, rank);
      RankMeansNoRequiredCycle(descs, rank);
    }
  }

  lemma RankMeansCreatable(descs: Descriptors, rank: map<Kind, nat>)
    requires Ranks(descs, rank) && rank.Keys == descs.Keys
    ensures Creatable(descs)
  {
    forall k, rd | k in descs && rd in descs[k].references && rd.min > 0
      ensures rd.targetKind in rank && rank[rd.targetKind] < rank[k]
    {
      assert RequiredEdge(descs, k, rd.targetKind);
    }
    assert IsCreationOrder(descs, rank);
  }

  lemma RequiredTargetIsEdge(descs: Descriptors, kind: Kind, i: nat)
    requires TargetsRegistered(descs) && kind in descs && i < |descs[kind].references| &&
             descs[kind].references[i].min > 0
    ensures RequiredEdge(descs, kind, descs[kind].references[i].targetKind)
    ensures descs[kind].references[i].targetKind in descs
  {
    assert descs[kind].references[i] in descs[kind].references;
    assert RequiredEdge(descs, kind, descs[kind].references[i].targetKind);
  }

  /** The targets of the required ones among the first `n` references are ranked. */
  ghost predicate FirstRanked(refs: seq<ReferenceDescriptor>, n: nat, ranked: map<Kind, nat>)
    requires n <= |refs|
  {
    forall j :: 0 <= j < n && refs[j].min > 0 ==> refs[j].targetKind in ranked
  }

  /** A later state of the search: no kind loses its colour or its rank. */
  ghost predicate FurtherOn(
    color: map<Kind, int>, rank: map<Kind, nat>, laterColor: map<Kind, int>, laterRank: map<Kind, nat>)
  {
    color.Keys <= laterColor.Keys && rank.Keys <= laterRank.Keys
  }

  lemma OneMoreRanked(refs: seq<ReferenceDescriptor>, n: nat, ranked: map<Kind, nat>, more: map<Kind, nat>)
    requires n < |refs| && FirstRanked(refs, n, ranked) && ranked.Keys <= more.Keys
    requires refs[n].min > 0 ==> refs[n].targetKind in more
    ensures FirstRanked(refs, n + 1, more)
  {
  }

  lemma AllRanked(descs: Descriptors, kind: Kind, rank: map<Kind, nat>)
    requires kind in descs && FirstRanked(descs[kind].references, |descs[kind].references|, rank)
    ensures TargetsRanked(descs, kind, rank)
  {
  }

  lemma EntriesRegisterTargets(descs: Descriptors)
    requires BasicOk(descs)
    ensures TargetsRegistered(descs)
  {
    assert forall k :: k in descs ==> EntryOk(descs, descs[k]);
  }

  /** The entries that the loop over the descriptors has accepted, with their plurals. */
  ghost predicate Passed(descs: Descriptors, done: set<Kind>, plurals: map<string, Kind>)
    requires done <= descs.Keys
  {
    && (forall k :: k in done ==> EntryOk(descs, descs[k]) && Rooted(descs, k))
    && (forall k :: k in done ==> descs[k].plural in plurals && plurals[descs[k].plural] == k)
    && (forall p :: p in plurals ==> plurals[p] in done && descs[plurals[p]].plural == p)
  }

  lemma OneMorePassed(descs: Descriptors, done: set<Kind>, plurals: map<string, Kind>, k: Kind)
    requires done <= descs.Keys && k in descs && Passed(descs, done, plurals)
    requires EntryOk(descs, descs[k]) && Rooted(descs, k) && descs[k].plural !in plurals
    ensures Passed(descs, done + {k}, plurals[descs[k].plural := k])
  {
  }

  /** The walk up a ParentKind chain: the kinds met so far, in order, and the kind `cur` that comes next. */
  ghost predicate Climbed(descs: Descriptors, chain: seq<Kind>, visited: set<Kind>, cur: Kind) {
    && |chain| > 0 && Distinct(chain) && |visited| == |chain| && (forall k :: k in visited <==> k in chain)
    && (forall i :: 0 <= i < |chain| - 1 ==> ParentEdge(descs, chain[i], chain[i + 1]))
    && (forall k :: k in chain ==> k != NoKind)
    && visited - {chain[|chain| - 1]} <= descs.Keys
    && cur == if chain[|chain| - 1] in descs then descs[chain[|chain| - 1]].parentKind else NoKind
  }

  lemma OneMoreParent(descs: Descriptors, chain: seq<Kind>, visited: set<Kind>, cur: Kind, next: Kind)
    requires Climbed(descs, chain, visited, cur) && cur != NoKind && cur !in visited
    requires next == if cur in descs then descs[cur].parentKind else NoKind
    ensures Climbed(descs, chain + [cur], visited + {cur}, next)
  {
    var more := chain + [cur];
    assert more[|chain|] == cur && chain[|chain| - 1] in visited;
    assert forall i :: 0 <= i < |chain| ==> more[i] == chain[i];
    assert ParentEdge(descs, chain[|chain| - 1], cur);
    forall i | 0 <= i < |chain| ensures ParentEdge(descs, more[i], more[i + 1]) {
      assert i < |chain| - 1 ==> ParentEdge(descs, chain[i], chain[i + 1]);
    }
  }

  /** What a chain tells that leads back into itself. */
  lemma LoopFound(descs: Descriptors, chain: seq<Kind>, met: Kind)
    requires 0 < |chain| <= |descs| && Distinct(chain) && (forall k :: k in chain ==> k != NoKind)
    requires forall j :: 0 <= j < |chain| - 1 ==> ParentEdge(descs, chain[j], chain[j + 1])
    requires met in chain && ParentEdge(descs, chain[|chain| - 1], met)
    ensures OnParentCycle(descs, met) && (OnParentCycle(descs, chain[0]) <==> met == chain[0])
    ensures OnParentCycle(descs, chain[0]) <==> Returns(descs, chain[0])
    ensures !Rooted(descs, chain[0]) && exists p :: ParentCycle(descs, p)
  {
    var i :| 0 <= i < |chain| && chain[i] == met;
    var p := chain[i..] + [met];
    assert forall j :: 0 <= j < |p| - 1 ==> ParentEdge(descs, p[j], p[j + 1]);
    assert ParentCycle(descs, p) && p[0] == met;
    LoopHasNoRoot(descs, chain, i);
    TailIsOffTheCycle(descs, chain, i);
    assert chain[0] in chain;
    ReturnsExactly(descs, chain, i);
  }

  /** A chain whose last kind leads back to its `i`-th never reaches a root. */
  lemma LoopHasNoRoot(descs: Descriptors, chain: seq<Kind>, i: nat)
    requires i < |chain| && (forall k :: k in chain ==> k != NoKind)
    requires forall j :: 0 <= j < |chain| - 1 ==> ParentEdge(descs, chain[j], chain[j + 1])
    requires ParentEdge(descs, chain[|chain| - 1], chain[i])
    ensures !Rooted(descs, chain[0])
  {
    if n: nat :| RootedIn(descs, chain[0], n) {
      assert chain[0] in chain && chain[i] in chain;
      RootedAlong(descs, chain, n, i);
      var p := chain[i..] + [chain[i]];
      assert forall j :: 0 <= j < |p| - 1 ==> ParentEdge(descs, p[j], p[j + 1]);
      assert ParentCycle(descs, p);
      CycleIsNotRooted(descs, p);
    }
  }

  /** A chain that runs into one of its later kinds never comes back to its first. */
  lemma TailIsOffTheCycle(descs: Descriptors, chain: seq<Kind>, i: nat)
    requires i < |chain| && Distinct(chain)
    requires forall j :: 0 <= j < |chain| - 1 ==> ParentEdge(descs, chain[j], chain[j + 1])
    requires ParentEdge(descs, chain[|chain| - 1], chain[i])
    ensures i > 0 ==> !OnParentCycle(descs, chain[0])
  {
    if i > 0 {
      forall p | ParentCycle(descs, p) ensures p[0] != chain[0] {
        if p[0] == chain[0] {
          StaysInTail(descs, chain, i, p, |p| - 1);
          assert false;
        }
      }
    }
  }

  /** Walking up a chain, step by step. */
  lemma {:induction false} AncestorAlong(descs: Descriptors, chain: seq<Kind>, i: nat)
    requires i < |chain| && chain[0] != NoKind
    requires forall j :: 0 <= j < |chain| - 1 ==> ParentEdge(descs, chain[j], chain[j + 1])
    ensures Ancestor(descs, chain[0], i) == chain[i]
    decreases |chain|
  {
    if i > 0 {
      var up := chain[1..];
      assert ParentEdge(descs, chain[0], chain[1]);
      forall j | 0 <= j < |up| - 1 ensures ParentEdge(descs, up[j], up[j + 1]) {
        assert ParentEdge(descs, chain[j + 1], chain[j + 2]);
      }
      AncestorAlong(descs, up, i - 1);
    }
  }

  /** The kinds met on the way up from `k`. */
  function WayUp(descs: Descriptors, k: Kind, n: nat): (way: seq<Kind>)
    ensures |way| == n + 1 && way[0] == k
    decreases n
  {
    if n == 0 then [k]
    else [k] + WayUp(descs, if k == NoKind || k !in descs then NoKind else descs[k].parentKind, n - 1)
  }

  lemma {:induction false} WayUpIsPath(descs: Descriptors, k: Kind, n: nat)
    requires Ancestor(descs, k, n) != NoKind
    ensures var way := WayUp(descs, k, n);
            way[n] == Ancestor(descs, k, n) && forall i :: 0 <= i < n ==> ParentEdge(descs, way[i], way[i + 1])
    decreases n
  {
    if n > 0 {
      var up := descs[k].parentKind;
      WayUpIsPath(descs, up, n - 1);
      var way, rest := WayUp(descs, k, n), WayUp(descs, up, n - 1);
      assert up != NoKind by { if n > 1 { assert ParentEdge(descs, rest[0], rest[1]); } }
      forall i | 0 <= i < n ensures ParentEdge(descs, way[i], way[i + 1]) {
        if i > 0 { assert ParentEdge(descs, rest[i - 1], rest[i]); }
      }
    }
  }

  /** The first kind of a looping chain of different registered kinds is on a cycle iff it comes back in time. */
  lemma ReturnsExactly(descs: Descriptors, chain: seq<Kind>, i: nat)
    requires i < |chain| <= |descs| && Distinct(chain) && chain[0] != NoKind
    requires forall j :: 0 <= j < |chain| - 1 ==> ParentEdge(descs, chain[j], chain[j + 1])
    requires ParentEdge(descs, chain[|chain| - 1], chain[i])
    ensures OnParentCycle(descs, chain[0]) <==> Returns(descs, chain[0])
  {
    if i == 0 {
      var circle := chain + [chain[0]];
      assert forall j :: 0 <= j < |circle| - 1 ==> ParentEdge(descs, circle[j], circle[j + 1]);
      assert ParentCycle(descs, circle) && circle[0] == chain[0];
      AncestorAlong(descs, circle, |chain|);
    } else {
      TailIsOffTheCycle(descs, chain, i);
      forall n | 1 <= n <= |descs| ensures Ancestor(descs, chain[0], n) != chain[0] {
        if Ancestor(descs, chain[0], n) == chain[0] {
          WayUpIsPath(descs, chain[0], n);
          assert ParentCycle(descs, WayUp(descs, chain[0], n));
        }
      }
    }
  }

  lemma {:induction false} StaysInTail(descs: Descriptors, chain: seq<Kind>, i: nat, p: seq<Kind>, n: nat)
    requires 0 < i < |chain|
    requires forall j :: 0 <= j < |chain| - 1 ==> ParentEdge(descs, chain[j], chain[j + 1])
    requires ParentEdge(descs, chain[|chain| - 1], chain[i])
    requires ParentCycle(descs, p) && p[0] == chain[0] && 0 < n < |p|
    ensures p[n] in chain[1..]
  {
    assert ParentEdge(descs, p[n - 1], p[n]);
    if n == 1 {
      assert ParentEdge(descs, chain[0], chain[1]);
      assert p[n] == chain[1..][0];
    } else {
      StaysInTail(descs, chain, i, p, n - 1);
      var j :| 0 <= j < |chain| - 1 && chain[1..][j] == p[n - 1];
      if j + 1 < |chain| - 1 {
        assert ParentEdge(descs, chain[j + 1], chain[j + 2]);
        assert p[n] == chain[1..][j + 1];
      } else {
        assert p[n] == chain[1..][i - 1];
      }
    }
  }

  /** A chain that leaves the registry roots each of its kinds. */
  lemma {:induction false} ChainEnds(descs: Descriptors, chain: seq<Kind>, i: nat)
    requires i < |chain| && (forall k :: k in chain ==> k != NoKind)
    requires forall j :: 0 <= j < |chain| - 1 ==> ParentEdge(descs, chain[j], chain[j + 1])
    requires chain[|chain| - 1] in descs ==> descs[chain[|chain| - 1]].parentKind == NoKind
    ensures RootedIn(descs, chain[i], if chain[|chain| - 1] in descs then |chain| - i else |chain| - i - 1)
    decreases |chain| - i
  {
    assert chain[i] in chain;
    if i < |chain| - 1 {
      ChainEnds(descs, chain, i + 1);
      assert ParentEdge(descs, chain[i], chain[i + 1]);
    } else if chain[i] in descs {
      assert RootedIn(descs, NoKind, 0);
    }
  }

  /** Cutting the stack at the repeated kind and closing it gives a genuine cycle. */
  lemma CloseCircle(descs: Descriptors, path: seq<Kind>, start: nat, target: Kind)
    requires RequiredPath(descs, path) && start < |path| && path[start] == target
    requires RequiredEdge(descs, path[|path| - 1], target)
    ensures RequiredCycle(descs, path[start..] + [target])
  {
    var p := path[start..] + [target];
    forall i | 0 <= i < |p| - 1 ensures RequiredStep(descs, p, i) {
      if i < |p| - 2 { assert RequiredStep(descs, path, start + i); }
    }
  }
}
