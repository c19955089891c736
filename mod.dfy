/**
 * The feature lifecycle orchestrator (`Mod`): a registry of feature classes
 * per side, and `run(side)`, which sorts a side's classes by priority,
 * instantiates them, has the configuration read and written, runs the boot
 * steps of enabled features and finally runs every enabled feature.
 */
module Lifecycle {

  import opened Wrappers
  import opened FeatureTypes

  /** A `Runnable` handed to `addBootStep`, known by an identifier. */
  datatype BootStep = BootStep(id: nat)

  /**
   * What happens when `run` calls a feature class's constructor: it either
   * returns, having registered the given boot steps for the new feature
   * through `addBootStep`, or throws.
   */
  datatype Construction = Constructed(bootSteps: seq<BootStep>) | ConstructorThrew

  /** A feature instance; only the configuration step changes `enabled`. */
  class ModFeature {
    const kind: FeatureType
    var enabled: bool

    constructor (kind: FeatureType)
      ensures this.kind == kind && enabled
    {
      this.kind := kind;
      enabled := true;
    }
  }

  /** What the orchestrator causes outside its own maps, in the order it happens. */
  datatype Event =
    | PopulatedFromDisk(features: seq<ModFeature>)
    | WrittenToDisk(features: seq<ModFeature>)
    | BootStepRan(owner: ModFeature, step: BootStep)
    | FeatureRan(feature: ModFeature)
    | FeatureSkipped(feature: ModFeature)

  /** How `run(side)` ends: returning early, returning, or throwing for the class that failed. */
  datatype RunResult = NothingToSetUp | Completed | InstantiationFailed(kind: FeatureType, side: Side)

  /**
   * The position of the first class whose constructor throws, or the length
   * of `classes` when none does: how far the instantiation loop gets.
   */
  function FirstFailure(classes: seq<FeatureType>, construct: FeatureType -> Construction): (k: nat)
    ensures k <= |classes|
    ensures forall i :: 0 <= i < k ==> construct(classes[i]).Constructed?
    ensures k < |classes| ==> construct(classes[k]).ConstructorThrew?
  {
    if classes == [] || construct(classes[0]).ConstructorThrew? then 0
    else 1 + FirstFailure(classes[1..], construct)
  }

  /** `featureForClass` after `put(classes[i], features[i])` for every `i` in turn. */
  function Indexed(m: map<FeatureType, ModFeature>, classes: seq<FeatureType>, features: seq<ModFeature>): map<FeatureType, ModFeature>
    requires |classes| == |features|
  {
    if classes == [] then m
    else Indexed(m, classes[..|classes| - 1], features[..|features| - 1])[classes[|classes| - 1] := features[|features| - 1]]
  }

  /** A side's boot-step table after the constructors of `features` have registered their steps. */
  function WithBootSteps(table: map<ModFeature, seq<BootStep>>, features: seq<ModFeature>,
                         construct: FeatureType -> Construction): map<ModFeature, seq<BootStep>>
  {
    if features == [] then table
    else
      var t := WithBootSteps(table, features[..|features| - 1], construct);
      var f := features[|features| - 1];
      match construct(f.kind)
      case Constructed(steps) => if steps == [] then t else t[f := steps]
      case ConstructorThrew => t
  }

  lemma IndexedSnoc(m: map<FeatureType, ModFeature>, classes: seq<FeatureType>, features: seq<ModFeature>,
                    c: FeatureType, f: ModFeature)
    requires |classes| == |features|
    ensures Indexed(m, classes + [c], features + [f]) == Indexed(m, classes, features)[c := f]
  {
    assert (classes + [c])[..|classes|] == classes;
    assert (features + [f])[..|features|] == features;
  }

  lemma WithBootStepsSnoc(table: map<ModFeature, seq<BootStep>>, features: seq<ModFeature>,
                          f: ModFeature, construct: FeatureType -> Construction, steps: seq<BootStep>)
    requires construct(f.kind) == Constructed(steps)
    ensures var t := WithBootSteps(table, features, construct);
            WithBootSteps(table, features + [f], construct) == if steps == [] then t else t[f := steps]
  {
    assert (features + [f])[..|features|] == features;
  }

  /** Every instance indexed by `Indexed` is an instance of the class it is indexed under. */
  lemma {:induction false} IndexedKinds(m: map<FeatureType, ModFeature>, classes: seq<FeatureType>, features: seq<ModFeature>)
    requires |classes| == |features|
    requires forall c :: c in m ==> m[c].kind == c
    requires forall i :: 0 <= i < |classes| ==> features[i].kind == classes[i]
    ensures var r := Indexed(m, classes, features);
            forall c :: c in r ==> r[c].kind == c
  {
    if classes != [] {
      var n := |classes| - 1;
      IndexedKinds(m, classes[..n], features[..n]);
      assert features[n].kind == classes[n];
      assert Indexed(m, classes, features) == Indexed(m, classes[..n], features[..n])[classes[n] := features[n]];
    }
  }

  /** The constructors only register boot steps for the instances being built. */
  lemma {:induction false} WithBootStepsKeys(table: map<ModFeature, seq<BootStep>>, features: seq<ModFeature>,
                                             construct: FeatureType -> Construction)
    ensures forall f :: f in WithBootSteps(table, features, construct) ==> f in table || f in features
  {
    if features != [] {
      WithBootStepsKeys(table, features[..|features| - 1], construct);
    }
  }

  /** The events of running `steps`, the boot steps of `owner`, in order. */
  function StepEvents(owner: ModFeature, steps: seq<BootStep>): seq<Event>
  {
    seq(|steps|, i requires 0 <= i < |steps| => BootStepRan(owner, steps[i]))
  }

  /**
   * The boot phase when the boot-step table yields its features in the
   * order `order`: each enabled feature's steps, one feature after another.
   */
  function BootEvents(order: seq<ModFeature>, table: map<ModFeature, seq<BootStep>>): seq<Event>
    reads order
  {
    if order == [] then []
    else
      var f := order[|order| - 1];
      BootEvents(order[..|order| - 1], table) + (if f in table && f.enabled then StepEvents(f, table[f]) else [])
  }

  /** The run phase: every feature in turn, run when enabled and skipped otherwise. */
  function RunEvents(features: seq<ModFeature>): seq<Event>
    reads features
  {
    if features == [] then []
    else
      var f := features[|features| - 1];
      RunEvents(features[..|features| - 1]) + [if f.enabled then FeatureRan(f) else FeatureSkipped(f)]
  }

  /** The keys of `featureForClass` after the puts: the classes it had and the classes put. */
  lemma {:induction false} IndexedKeys(m: map<FeatureType, ModFeature>, classes: seq<FeatureType>, features: seq<ModFeature>)
    requires |classes| == |features|
    ensures forall c :: c in Indexed(m, classes, features) <==> c in m || c in classes
  {
    if classes != [] {
      var n := |classes| - 1;
      IndexedKeys(m, classes[..n], features[..n]);
      assert classes == classes[..n] + [classes[n]];
    }
  }

  /** A class that was not put keeps its instance. */
  lemma {:induction false} IndexedKeeps(m: map<FeatureType, ModFeature>, classes: seq<FeatureType>, features: seq<ModFeature>,
                                        c: FeatureType)
    requires |classes| == |features|
    requires c in m && c !in classes
    ensures c in Indexed(m, classes, features) && Indexed(m, classes, features)[c] == m[c]
  {
    if classes != [] {
      var n := |classes| - 1;
      assert c !in classes[..n] by {
        assert classes == classes[..n] + [classes[n]];
      }
      IndexedKeeps(m, classes[..n], features[..n], c);
    }
  }

  /** A class put for the last time at position `i` holds the instance put there. */
  lemma {:induction false} IndexedLastPut(m: map<FeatureType, ModFeature>, classes: seq<FeatureType>, features: seq<ModFeature>,
                                          i: nat)
    requires |classes| == |features|
    requires i < |classes| && classes[i] !in classes[i + 1..]
    ensures classes[i] in Indexed(m, classes, features) && Indexed(m, classes, features)[classes[i]] == features[i]
  {
    var n := |classes| - 1;
    if i < n {
      var front, fs := classes[..n], features[..n];
      assert classes[n] == classes[i + 1..][n - i - 1];
      assert front[i + 1..] == classes[i + 1..n];
      IndexedLastPut(m, front, fs, i);
    }
  }

  /**
   * `featureForClass` after the puts: its keys are the classes it had and
   * the classes put; a class not put keeps its instance, and a class put
   * holds the instance of its last put.
   */
  lemma IndexedLookup(m: map<FeatureType, ModFeature>, classes: seq<FeatureType>, features: seq<ModFeature>)
    requires |classes| == |features|
    ensures forall c :: c in Indexed(m, classes, features) <==> c in m || c in classes
    ensures forall c :: c in m && c !in classes ==> Indexed(m, classes, features)[c] == m[c]
    ensures forall i :: 0 <= i < |classes| && classes[i] !in classes[i + 1..] ==>
              Indexed(m, classes, features)[classes[i]] == features[i]
  {
    IndexedKeys(m, classes, features);
    forall c | c in m && c !in classes
      ensures Indexed(m, classes, features)[c] == m[c]
    {
      IndexedKeeps(m, classes, features, c);
    }
    forall i | 0 <= i < |classes| && classes[i] !in classes[i + 1..]
      ensures Indexed(m, classes, features)[classes[i]] == features[i]
    {
      IndexedLastPut(m, classes, features, i);
    }
  }

  /** After the puts, every class holds either the instance it had before or one of the instances put. */
  lemma {:induction false} IndexedFrom(m: map<FeatureType, ModFeature>, classes: seq<FeatureType>, features: seq<ModFeature>)
    requires |classes| == |features|
    ensures var r := Indexed(m, classes, features);
            forall c :: c in r ==> (c in m && r[c] == m[c]) || r[c] in features
  {
    if classes != [] {
      var n := |classes| - 1;
      IndexedFrom(m, classes[..n], features[..n]);
      assert features == features[..n] + [features[n]];
    }
  }

  /** The boot steps `events` run for `f`, in the order they ran. */
  function StepsRunFor(events: seq<Event>, f: ModFeature): seq<BootStep>
  {
    if events == [] then []
    else
      var e := events[|events| - 1];
      StepsRunFor(events[..|events| - 1], f) + (if e.BootStepRan? && e.owner == f then [e.step] else [])
  }

  lemma {:induction false} StepsRunForAppend(a: seq<Event>, b: seq<Event>, f: ModFeature)
    ensures StepsRunFor(a + b, f) == StepsRunFor(a, f) + StepsRunFor(b, f)
  {
    if b == [] {
      assert a + b == a;
    } else {
      assert (a + b)[..|a + b| - 1] == a + b[..|b| - 1];
      StepsRunForAppend(a, b[..|b| - 1], f);
    }
  }

  /** Running one feature's steps runs exactly those steps, in order, for that feature only. */
  lemma {:induction false} StepsRunForStepEvents(owner: ModFeature, steps: seq<BootStep>, f: ModFeature)
    ensures StepsRunFor(StepEvents(owner, steps), f) == if owner == f then steps else []
  {
    if steps != [] {
      var n := |steps| - 1;
      assert StepEvents(owner, steps)[..n] == StepEvents(owner, steps[..n]);
      StepsRunForStepEvents(owner, steps[..n], f);
      assert steps == steps[..n] + [steps[n]];
    }
  }

  /**
   * The boot phase runs, for each feature, its boot steps in the order they
   * were added if it is enabled, and none if it is disabled; it runs
   * nothing but boot steps, and only those of enabled features.
   */
  lemma {:induction false} BootStepsRun(order: seq<ModFeature>, table: map<ModFeature, seq<BootStep>>, f: ModFeature)
    requires Distinct(order)
    ensures StepsRunFor(BootEvents(order, table), f) == if f in order && f in table && f.enabled then table[f] else []
    ensures forall e :: e in BootEvents(order, table) ==> e.BootStepRan? && e.owner in order && e.owner.enabled
  {
    BootStepsRunFor(order, table, f);
    BootEventOwners(order, table);
  }

  /** Each feature's steps, and only those, run for it in the boot phase. */
  lemma {:induction false} BootStepsRunFor(order: seq<ModFeature>, table: map<ModFeature, seq<BootStep>>, f: ModFeature)
    requires Distinct(order)
    ensures StepsRunFor(BootEvents(order, table), f) == if f in order && f in table && f.enabled then table[f] else []
  {
    if order != [] {
      var n := |order| - 1;
      var front, g := order[..n], order[n];
      assert Distinct(front);
      BootStepsRunFor(front, table, f);
      BootStepsRunForLast(front, g, table, f);
      assert order == front + [g];
      if f == g {
        assert f !in front;
      } else {
        assert f in order <==> f in front;
      }
    }
  }

  /** The steps run for `f` when one more feature `g` is visited. */
  lemma BootStepsRunForLast(front: seq<ModFeature>, g: ModFeature, table: map<ModFeature, seq<BootStep>>, f: ModFeature)
    ensures StepsRunFor(BootEvents(front + [g], table), f) ==
            StepsRunFor(BootEvents(front, table), f) + (if g == f && g in table && g.enabled then table[g] else [])
  {
    var steps := if g in table && g.enabled then StepEvents(g, table[g]) else [];
    BootEventsSnoc(front, g, table);
    StepsRunForAppend(BootEvents(front, table), steps, f);
    if g in table && g.enabled {
      StepsRunForStepEvents(g, table[g], f);
    }
  }

  /** The boot phase runs only boot steps, and only those of enabled features in `order`. */
  lemma {:induction false} BootEventOwners(order: seq<ModFeature>, table: map<ModFeature, seq<BootStep>>)
    ensures forall e :: e in BootEvents(order, table) ==> e.BootStepRan? && e.owner in order && e.owner.enabled
  {
    if order != [] {
      var n := |order| - 1;
      var front, g := order[..n], order[n];
      BootEventOwners(front, table);
      assert order == front + [g];
      forall e | e in BootEvents(order, table)
        ensures e.BootStepRan? && e.owner in order && e.owner.enabled
      {
        if e !in BootEvents(front, table) {
          assert g in table && g.enabled && e in StepEvents(g, table[g]);
        }
      }
    }
  }

  /** The run phase takes the features in list order: each is run if enabled and skipped if not. */
  lemma {:induction false} FeaturesRun(features: seq<ModFeature>)
    ensures |RunEvents(features)| == |features|
    ensures forall i :: 0 <= i < |features| ==>
              RunEvents(features)[i] == if features[i].enabled then FeatureRan(features[i]) else FeatureSkipped(features[i])
  {
    if features != [] {
      FeaturesRun(features[..|features| - 1]);
    }
  }

  /** The list a map of lists holds for `key`, as `computeIfAbsent` finds or creates it. */
  function ListOf<K, V>(m: map<K, seq<V>>, key: K): seq<V>
  {
    if key in m then m[key] else []
  }

  /** The boot-step table of `side`, as `computeIfAbsent` finds or creates it. */
  function TableOf(boots: map<Side, map<ModFeature, seq<BootStep>>>, side: Side): map<ModFeature, seq<BootStep>>
  {
    if side in boots then boots[side] else map[]
  }

  /** Every class is filed under the side it declares. */
  ghost predicate ClassesBySide(m: map<Side, seq<FeatureType>>)
  {
    forall s, c :: s in m && c in m[s] ==> c.side == s
  }

  /** Every instance is filed under the side its class declares. */
  ghost predicate FeaturesBySide(m: map<Side, seq<ModFeature>>)
  {
    forall s, f :: s in m && f in m[s] ==> f.kind.side == s
  }

  /** Every instance is indexed under its own class. */
  ghost predicate IndexedByClass(m: map<FeatureType, ModFeature>)
  {
    forall c :: c in m ==> m[c].kind == c
  }

  /** Only registered classes are instantiated: every indexed class is on its side's list. */
  ghost predicate IndexedRegistered(m: map<FeatureType, ModFeature>, classes: map<Side, seq<FeatureType>>)
  {
    forall c :: c in m ==> c.side in classes && c in classes[c.side]
  }

  /** Putting registered classes keeps every indexed class registered. */
  lemma IndexedRegisteredAfter(m: map<FeatureType, ModFeature>, put: seq<FeatureType>, features: seq<ModFeature>,
                               classes: map<Side, seq<FeatureType>>)
    requires |put| == |features|
    requires IndexedRegistered(m, classes)
    requires forall c :: c in put ==> c in ListOf(classes, c.side)
    ensures IndexedRegistered(Indexed(m, put, features), classes)
  {
    IndexedKeys(m, put, features);
  }

  /** Every indexed instance is on the instance list of its class's side. */
  ghost predicate IndexedListed(m: map<FeatureType, ModFeature>, features: map<Side, seq<ModFeature>>)
  {
    forall c :: c in m ==> m[c] in ListOf(features, c.side)
  }

  /** Indexing instances of one side's classes while appending them to that side's list keeps every indexed instance listed. */
  lemma IndexedListedAfter(m: map<FeatureType, ModFeature>, put: seq<FeatureType>, added: seq<ModFeature>,
                           features: map<Side, seq<ModFeature>>, side: Side)
    requires |put| == |added| && side in features
    requires IndexedByClass(m) && IndexedListed(m, features)
    requires forall i :: 0 <= i < |added| ==> added[i].kind == put[i] && put[i].side == side
    ensures IndexedListed(Indexed(m, put, added), features[side := features[side] + added])
  {
    var r := Indexed(m, put, added);
    var after := features[side := features[side] + added];
    IndexedFrom(m, put, added);
    IndexedKinds(m, put, added);
    forall c | c in r
      ensures r[c] in ListOf(after, c.side)
    {
      if c in m && r[c] == m[c] {
        assert m[c] in ListOf(features, c.side);
      } else {
        var i :| 0 <= i < |added| && added[i] == r[c];
        assert c == put[i];
      }
    }
  }

  /** Every boot-step table is filed under the side of the features it holds. */
  ghost predicate BootsBySide(m: map<Side, map<ModFeature, seq<BootStep>>>)
  {
    forall s, f :: s in m && f in m[s] ==> f.kind.side == s
  }

  lemma ClassesBySideUpdate(m: map<Side, seq<FeatureType>>, side: Side, list: seq<FeatureType>)
    requires ClassesBySide(m) && forall c :: c in list ==> c.side == side
    ensures ClassesBySide(m[side := list])
  {
  }

  lemma FeaturesBySideUpdate(m: map<Side, seq<ModFeature>>, side: Side, list: seq<ModFeature>)
    requires FeaturesBySide(m) && forall f :: f in list ==> f.kind.side == side
    ensures FeaturesBySide(m[side := list])
  {
  }

  lemma BootsBySideUpdate(m: map<Side, map<ModFeature, seq<BootStep>>>, side: Side, table: map<ModFeature, seq<BootStep>>)
    requires BootsBySide(m) && forall f :: f in table ==> f.kind.side == side
    ensures BootsBySide(m[side := table])
  {
  }

  /** The registries' invariant, on their values. */
  ghost predicate ValidState(featureForClass: map<FeatureType, ModFeature>, sidedClasses: map<Side, seq<FeatureType>>,
                             sidedFeatures: map<Side, seq<ModFeature>>, boots: map<Side, map<ModFeature, seq<BootStep>>>)
  {
    ClassesBySide(sidedClasses) && FeaturesBySide(sidedFeatures) &&
    IndexedByClass(featureForClass) && IndexedRegistered(featureForClass, sidedClasses) &&
    IndexedListed(featureForClass, sidedFeatures) && BootsBySide(boots)
  }

  /** The instantiation loop keeps the invariant. */
  lemma InstantiatedValid(featureForClass: map<FeatureType, ModFeature>, sidedClasses: map<Side, seq<FeatureType>>,
                          sidedFeatures: map<Side, seq<ModFeature>>, boots: map<Side, map<ModFeature, seq<BootStep>>>,
                          side: Side, classes: seq<FeatureType>, added: seq<ModFeature>, construct: FeatureType -> Construction,
                          index: map<FeatureType, ModFeature>, table: map<ModFeature, seq<BootStep>>)
    requires ValidState(featureForClass, sidedClasses, sidedFeatures, boots) && side in sidedFeatures
    requires classes == ListOf(sidedClasses, side)
    requires |added| <= |classes| && forall i :: 0 <= i < |added| ==> added[i].kind == classes[i]
    requires index == Indexed(featureForClass, classes[..|added|], added)
    requires table == WithBootSteps(TableOf(boots, side), added, construct)
    ensures ValidState(index, sidedClasses, sidedFeatures[side := sidedFeatures[side] + added], boots[side := table])
  {
    var k := |added|;
    assert forall c :: c in classes ==> c.side == side;
    IndexedKinds(featureForClass, classes[..k], added);
    IndexedRegisteredAfter(featureForClass, classes[..k], added, sidedClasses);
    IndexedListedAfter(featureForClass, classes[..k], added, sidedFeatures, side);
    WithBootStepsKeys(TableOf(boots, side), added, construct);
    assert forall f :: f in added ==> f.kind.side == side;
    FeaturesBySideUpdate(sidedFeatures, side, sidedFeatures[side] + added);
    BootsBySideUpdate(boots, side, WithBootSteps(TableOf(boots, side), added, construct));
  }

  /** Sorting a side's classes, and finding or creating its instance list, keeps the invariant. */
  lemma SortedValid(featureForClass: map<FeatureType, ModFeature>, sidedClasses: map<Side, seq<FeatureType>>,
                    sidedFeatures: map<Side, seq<ModFeature>>, boots: map<Side, map<ModFeature, seq<BootStep>>>,
                    side: Side)
    requires ValidState(featureForClass, sidedClasses, sidedFeatures, boots)
    ensures ValidState(featureForClass, sidedClasses[side := SortByPriority(ListOf(sidedClasses, side))],
                       sidedFeatures[side := ListOf(sidedFeatures, side)], boots)
  {
    var classes := ListOf(sidedClasses, side);
    var sorted := SortByPriority(classes);
    SortedFrom(classes, side);
    SortedMembers(classes);
    ClassesBySideUpdate(sidedClasses, side, sorted);
    FeaturesBySideUpdate(sidedFeatures, side, ListOf(sidedFeatures, side));
    assert IndexedRegistered(featureForClass, sidedClasses[side := sorted]);
  }

  /** No element occurs twice. */
  predicate Distinct<T(==)>(s: seq<T>)
  {
    forall i, j :: 0 <= i < j < |s| ==> s[i] != s[j]
  }

  /** `order` lists every feature of `table` once. */
  ghost predicate EnumerationOf(order: seq<ModFeature>, table: map<ModFeature, seq<BootStep>>)
  {
    Distinct(order) && table.Keys == set f | f in order
  }

  /** `order` lists, once each, the keys of the table that are no longer `remaining`. */
  ghost predicate Visiting(order: seq<ModFeature>, remaining: set<ModFeature>, keys: set<ModFeature>)
  {
    Distinct(order) && remaining <= keys && (set g | g in order) == keys - remaining
  }

  /** Visiting one more feature keeps `order` an enumeration of the visited ones. */
  lemma EnumerationStep(order: seq<ModFeature>, remaining: set<ModFeature>, keys: set<ModFeature>, f: ModFeature)
    requires Visiting(order, remaining, keys) && f in remaining
    ensures Visiting(order + [f], remaining - {f}, keys)
  {
    assert f !in order by {
      assert f !in keys - remaining;
    }
    assert (set g | g in order + [f]) == (set g | g in order) + {f};
  }

  /** Once nothing remains, `order` enumerates the table. */
  lemma EnumerationDone(order: seq<ModFeature>, table: map<ModFeature, seq<BootStep>>)
    requires Visiting(order, {}, table.Keys)
    ensures EnumerationOf(order, table)
  {
  }

  /** Finding or creating a side's boot-step table leaves every side's table as it was. */
  lemma TablesKept(boots: map<Side, map<ModFeature, seq<BootStep>>>, side: Side)
    ensures forall s :: TableOf(boots[side := TableOf(boots, side)], s) == TableOf(boots, s)
  {
  }

  lemma UpdateTwice<K, V>(m: map<K, V>, key: K, a: V, b: V)
    ensures m[key := a][key := b] == m[key := b]
  {
  }

  lemma AppendAssociative<T>(a: seq<T>, b: seq<T>, c: seq<T>)
    ensures a + b + c == a + (b + c)
  {
  }

  lemma BootEventsSnoc(order: seq<ModFeature>, f: ModFeature, table: map<ModFeature, seq<BootStep>>)
    ensures BootEvents(order + [f], table) ==
            BootEvents(order, table) + (if f in table && f.enabled then StepEvents(f, table[f]) else [])
  {
    assert (order + [f])[..|order|] == order;
  }

  /** Sorting keeps exactly the classes it was given. */
  lemma SortedMembers(classes: seq<FeatureType>)
    ensures forall c :: c in SortByPriority(classes) <==> c in classes
  {
    var sorted := SortByPriority(classes);
    assert forall c :: c in sorted <==> c in multiset(sorted);
    assert forall c :: c in classes <==> c in multiset(classes);
  }

  lemma SortedFrom(classes: seq<FeatureType>, side: Side)
    requires forall c :: c in classes ==> c.side == side
    ensures forall c :: c in SortByPriority(classes) ==> c.side == side
  {
    var sorted := SortByPriority(classes);
    forall c | c in sorted ensures c.side == side {
      assert c in multiset(sorted);
      assert c in multiset(classes);
    }
  }

  class Mod {
    var featureForClass: map<FeatureType, ModFeature>
    var sidedClasses: map<Side, seq<FeatureType>>
    var sidedFeatures: map<Side, seq<ModFeature>>
    var boots: map<Side, map<ModFeature, seq<BootStep>>>
    /** The configuration calls, boot steps and feature runs made so far. */
    var trace: seq<Event>

    /**
     * Everything is filed under the side its class declares, every instance
     * is indexed under its own class and is on its side's instance list,
     * and only registered classes have instances.
     */
    ghost predicate Valid()
      reads this
    {
      ValidState(featureForClass, sidedClasses, sidedFeatures, boots)
    }

    constructor ()
      ensures Valid()
      ensures featureForClass == map[] && sidedClasses == map[] && sidedFeatures == map[]
      ensures boots == map[] && trace == []
    {
      featureForClass := map[];
      sidedClasses := map[];
      sidedFeatures := map[];
      boots := map[];
      trace := [];
    }

    /** `addFeature`: appends the class to the list of the side it declares, and to no other. */
    method AddFeature(c: FeatureType)
      requires Valid()
      modifies this
      ensures Valid()
      ensures sidedClasses == old(sidedClasses)[c.side := ListOf(old(sidedClasses), c.side) + [c]]
      ensures forall s :: s != c.side ==> ListOf(sidedClasses, s) == ListOf(old(sidedClasses), s)
      ensures featureForClass == old(featureForClass) && sidedFeatures == old(sidedFeatures)
      ensures boots == old(boots) && trace == old(trace)
    {
      var classes := ListOf(sidedClasses, c.side) + [c];
      ClassesBySideUpdate(sidedClasses, c.side, classes);
      sidedClasses := sidedClasses[c.side := classes];
    }

    /** `addBootStep`: appends the step to the feature's list under the feature's own side. */
    method AddBootStep(feature: ModFeature, step: BootStep)
      requires Valid()
      modifies this
      ensures Valid()
      ensures var side := feature.kind.side;
              var table := TableOf(old(boots), side);
              boots == old(boots)[side := table[feature := (if feature in table then table[feature] else []) + [step]]]
      ensures forall s :: s != feature.kind.side ==> TableOf(boots, s) == TableOf(old(boots), s)
      ensures featureForClass == old(featureForClass) && sidedClasses == old(sidedClasses)
      ensures sidedFeatures == old(sidedFeatures) && trace == old(trace)
    {
      var table := TableOf(boots, feature.kind.side);
      boots := boots[feature.kind.side := table[feature := (if feature in table then table[feature] else []) + [step]]];
    }

    /**
     * `tryFeature`: the instance stored for exactly class `c`, or nothing if
     * `c` was never instantiated; that instance is also on its side's list
     * in `features()`.
     */
    function TryFeature(c: FeatureType): (r: Option<ModFeature>)
      requires Valid()
      reads this
      ensures r.Some? <==> c in featureForClass
      ensures r.Some? ==> r.value.kind == c
      ensures c !in ListOf(sidedClasses, c.side) ==> r.None?
      ensures r.Some? ==> r.value in ListOf(Features(), c.side)
    {
      if c in featureForClass then Some(featureForClass[c]) else None
    }

    /** `feature`: the same instance as `tryFeature`, or a failure naming the class when there is none. */
    function Feature(c: FeatureType): (r: Result<ModFeature, FeatureType>)
      requires Valid()
      reads this
      ensures r.Success? <==> TryFeature(c).Some?
      ensures r.Success? ==> r.value == TryFeature(c).value && r.value.kind == c
      ensures r.Failure? ==> r.error == c
      ensures c !in ListOf(sidedClasses, c.side) ==> r == Failure(c)
    {
      match TryFeature(c)
      case Some(f) => Success(f)
      case None => Failure(c)
    }

    /** `features()`: every side's instance list, each instance under the side its class declares. */
    function Features(): (r: map<Side, seq<ModFeature>>)
      requires Valid()
      reads this
      ensures r.Keys == sidedFeatures.Keys
      ensures forall s, f :: s in r && f in r[s] ==> f.kind.side == s
      ensures forall s :: s in r ==> r[s] == ListOf(sidedFeatures, s)
    {
      sidedFeatures
    }

    /**
     * The body of the instantiation loop: builds an instance of each class
     * in turn, indexing it under its class in `index` and adding the boot
     * steps its constructor registers to `table`, up to the first
     * constructor that throws.
     */
    method Construct(classes: seq<FeatureType>, construct: FeatureType -> Construction,
                     index0: map<FeatureType, ModFeature>, table0: map<ModFeature, seq<BootStep>>)
      returns (k: nat, added: seq<ModFeature>, index: map<FeatureType, ModFeature>, table: map<ModFeature, seq<BootStep>>)
      ensures k == FirstFailure(classes, construct) && |added| == k
      ensures forall i :: 0 <= i < k ==> fresh(added[i]) && added[i].kind == classes[i]
      ensures index == Indexed(index0, classes[..k], added)
      ensures table == WithBootSteps(table0, added, construct)
    {
      index, table := index0, table0;
      added := [];
      var i := 0;
      while i < |classes| && construct(classes[i]).Constructed?
        invariant 0 <= i <= FirstFailure(classes, construct) && |added| == i
        invariant forall j :: 0 <= j < i ==> fresh(added[j]) && added[j].kind == classes[j]
        invariant index == Indexed(index0, classes[..i], added)
        invariant table == WithBootSteps(table0, added, construct)
      {
        var c := classes[i];
        var steps := construct(c).bootSteps;
        var feature := new ModFeature(c);
        // the boot steps the constructor registers through addBootStep
        if steps != [] {
          table := table[feature := steps];
        }
        index := index[c := feature];
        assert classes[..i + 1] == classes[..i] + [c];
        IndexedSnoc(index0, classes[..i], added, c, feature);
        WithBootStepsSnoc(table0, added, feature, construct, steps);
        added := added + [feature];
        i := i + 1;
      }
      k := i;
    }

    /**
     * The instantiation loop of `run`: constructs the classes in order,
     * indexing each instance and appending it to the side's list, and stops
     * at the first constructor that throws; what was built before stays.
     * Returns how many classes were instantiated; `added` are the instances.
     */
    method Instantiate(side: Side, classes: seq<FeatureType>, construct: FeatureType -> Construction)
      returns (k: nat, added: seq<ModFeature>)
      requires Valid()
      requires side in sidedFeatures
      requires classes == ListOf(sidedClasses, side)
      modifies this
      ensures Valid()
      ensures k == FirstFailure(classes, construct) && |added| == k
      ensures sidedFeatures == old(sidedFeatures)[side := old(sidedFeatures[side]) + added]
      ensures forall i :: 0 <= i < k ==> fresh(added[i]) && added[i].kind == classes[i]
      ensures featureForClass == Indexed(old(featureForClass), classes[..k], added)
      ensures boots == old(boots)[side := WithBootSteps(TableOf(old(boots), side), added, construct)]
      ensures sidedClasses == old(sidedClasses) && trace == old(trace)
    {
      var index, table;
      k, added, index, table := Construct(classes, construct, featureForClass, TableOf(boots, side));
      InstantiatedValid(featureForClass, sidedClasses, sidedFeatures, boots, side, classes, added, construct, index, table);
      Commit(side, added, index, table);
    }

    /** Stores what the instantiation loop built: the index, the side's extended list and its boot-step table. */
    method Commit(side: Side, added: seq<ModFeature>, index: map<FeatureType, ModFeature>,
                  table: map<ModFeature, seq<BootStep>>)
      requires side in sidedFeatures
      requires ValidState(index, sidedClasses, sidedFeatures[side := sidedFeatures[side] + added], boots[side := table])
      modifies this
      ensures Valid()
      ensures featureForClass == index && sidedFeatures == old(sidedFeatures)[side := old(sidedFeatures[side]) + added]
      ensures boots == old(boots)[side := table]
      ensures sidedClasses == old(sidedClasses) && trace == old(trace)
    {
      featureForClass := index;
      sidedFeatures := sidedFeatures[side := sidedFeatures[side] + added];
      boots := boots[side := table];
    }

    /**
     * `config.populateFromDisk(features)` then `config.writeToDisk(features)`:
     * reading the stored configuration may set every feature's `enabled` flag,
     * here to the value stored for its class.
     */
    method Configure(features: seq<ModFeature>, stored: FeatureType -> bool)
      modifies this`trace, features
      ensures forall f :: f in features ==> f.enabled == stored(f.kind)
      ensures trace == old(trace) + [PopulatedFromDisk(features), WrittenToDisk(features)]
    {
      forall f | f in features {
        f.enabled := stored(f.kind);
      }
      trace := trace + [PopulatedFromDisk(features)];
      trace := trace + [WrittenToDisk(features)];
    }

    /** Runs the boot steps of one feature, in the order they were added. */
    method RunSteps(feature: ModFeature, steps: seq<BootStep>)
      modifies this`trace
      ensures trace == old(trace) + StepEvents(feature, steps)
    {
      var i := 0;
      while i < |steps|
        invariant 0 <= i <= |steps|
        invariant trace == old(trace) + StepEvents(feature, steps[..i])
      {
        assert StepEvents(feature, steps[..i + 1]) == StepEvents(feature, steps[..i]) + [BootStepRan(feature, steps[i])];
        trace := trace + [BootStepRan(feature, steps[i])];
        i := i + 1;
      }
      assert steps[..i] == steps;
    }

    /**
     * The boot phase of `run`: walks the side's boot-step table in whatever
     * order the map yields its features (`order`), running the steps of each
     * enabled feature in the order they were added.
     */
    method RunBootSteps(side: Side) returns (ghost order: seq<ModFeature>)
      requires side in boots
      modifies this`trace
      ensures EnumerationOf(order, boots[side])
      ensures trace == old(trace) + BootEvents(order, boots[side])
    {
      var table := boots[side];
      var remaining := table.Keys;
      order := [];
      while remaining != {}
        invariant Visiting(order, remaining, table.Keys)
        invariant trace == old(trace) + BootEvents(order, table)
        decreases remaining
      {
        var feature :| feature in remaining;
        EnumerationStep(order, remaining, table.Keys, feature);
        ghost var ran := if feature.enabled then StepEvents(feature, table[feature]) else [];
        if feature.enabled {
          RunSteps(feature, table[feature]);
        }
        assert trace == old(trace) + BootEvents(order, table) + ran;
        AppendAssociative(old(trace), BootEvents(order, table), ran);
        BootEventsSnoc(order, feature, table);
        remaining := remaining - {feature};
        order := order + [feature];
      }
      EnumerationDone(order, table);
    }

    /** The run phase of `run`: each feature in list order is run if enabled and skipped otherwise. */
    method RunFeatures(features: seq<ModFeature>)
      modifies this`trace
      ensures trace == old(trace) + RunEvents(features)
    {
      var i := 0;
      while i < |features|
        invariant 0 <= i <= |features|
        invariant trace == old(trace) + RunEvents(features[..i])
      {
        var feature := features[i];
        assert features[..i + 1][..i] == features[..i];
        var event := if feature.enabled then FeatureRan(feature) else FeatureSkipped(feature);
        AppendAssociative(old(trace), RunEvents(features[..i]), [event]);
        trace := trace + [event];
        i := i + 1;
      }
      assert features[..i] == features;
    }

    method ConfigureBootAndRun(side: Side, stored: FeatureType -> bool) returns (ghost order: seq<ModFeature>)
      requires Valid() && side in sidedFeatures
      modifies this, sidedFeatures[side]
      ensures Valid()
      ensures featureForClass == old(featureForClass) && sidedClasses == old(sidedClasses) && sidedFeatures == old(sidedFeatures)
      ensures boots == old(boots)[side := TableOf(old(boots), side)]
      ensures var all := sidedFeatures[side];
              (forall f :: f in all ==> f.enabled == stored(f.kind)) &&
              EnumerationOf(order, boots[side]) &&
              trace == old(trace) + [PopulatedFromDisk(all), WrittenToDisk(all)] + BootEvents(order, boots[side]) + RunEvents(all)
    {
      ghost var t0 := trace;
      var features := sidedFeatures[side];
      Configure(features, stored);
      assert Valid();
      ghost var t1 := trace;
      boots := boots[side := TableOf(boots, side)];
      assert Valid();
      order := RunBootSteps(side);
      ghost var t2 := trace;
      RunFeatures(features);
      assert trace == t2 + RunEvents(features);
    }

    /**
     * The start of `run` for a side that has classes: both lists are found or
     * created, and the side's class list is sorted by priority in place.
     */
    method SortClasses(side: Side) returns (sorted: seq<FeatureType>)
      requires Valid() && ListOf(sidedClasses, side) != []
      modifies this
      ensures Valid()
      ensures sorted == SortByPriority(ListOf(old(sidedClasses), side))
      ensures forall c :: c in sorted ==> c.side == side
      ensures sidedClasses == old(sidedClasses)[side := sorted]
      ensures sidedFeatures == old(sidedFeatures)[side := ListOf(old(sidedFeatures), side)]
      ensures featureForClass == old(featureForClass) && boots == old(boots) && trace == old(trace)
    {
      var classes := ListOf(sidedClasses, side);
      sorted := SortByPriority(classes);
      SortedFrom(classes, side);
      SortedValid(featureForClass, sidedClasses, sidedFeatures, boots, side);
      sidedClasses := sidedClasses[side := sorted];
      sidedFeatures := sidedFeatures[side := ListOf(sidedFeatures, side)];
    }

    /**
     * The part of `run` up to the end of the instantiation loop, for a side
     * that has classes: both lists are found or created, the classes are
     * sorted by priority (stably) and instantiated in that order up to the
     * first constructor that throws; `added` are the new instances.
     */
    method SortAndInstantiate(side: Side, construct: FeatureType -> Construction)
      returns (sorted: seq<FeatureType>, k: nat, ghost added: seq<ModFeature>)
      requires Valid() && ListOf(sidedClasses, side) != []
      modifies this
      ensures Valid()
      ensures sorted == SortByPriority(ListOf(old(sidedClasses), side))
      ensures k == FirstFailure(sorted, construct) && k <= |sorted| &&
              sidedClasses == old(sidedClasses)[side := sorted] &&
              sidedFeatures == old(sidedFeatures)[side := ListOf(old(sidedFeatures), side) + added] &&
              |added| == k &&
              (forall i :: 0 <= i < k ==> fresh(added[i]) && added[i].kind == sorted[i]) &&
              featureForClass == Indexed(old(featureForClass), sorted[..k], added) &&
              TableOf(boots, side) == WithBootSteps(TableOf(old(boots), side), added, construct)
      ensures forall s :: s != side ==> TableOf(boots, s) == TableOf(old(boots), s)
      ensures trace == old(trace)
      ensures forall f :: f in sidedFeatures[side] ==> f in ListOf(old(sidedFeatures), side) || fresh(f)
    {
      ghost var features0 := sidedFeatures;
      sorted := SortClasses(side);
      ghost var before := sidedFeatures[side];
      k, added := Instantiate(side, sorted, construct);
      UpdateTwice(features0, side, before, before + added);
    }

    /** `run(side)` for a side that has classes. */
    method SetUp(side: Side, construct: FeatureType -> Construction, stored: FeatureType -> bool)
      returns (r: RunResult, ghost added: seq<ModFeature>, ghost order: seq<ModFeature>)
      requires Valid() && ListOf(sidedClasses, side) != []
      modifies this, ListOf(sidedFeatures, side)
      ensures Valid()
      ensures var sorted := SortByPriority(ListOf(old(sidedClasses), side));
                var k := FirstFailure(sorted, construct);
                sidedClasses == old(sidedClasses)[side := sorted] &&
                sidedFeatures == old(sidedFeatures)[side := ListOf(old(sidedFeatures), side) + added] &&
                |added| == k &&
                (forall i :: 0 <= i < k ==> fresh(added[i]) && added[i].kind == sorted[i]) &&
                featureForClass == Indexed(old(featureForClass), sorted[..k], added) &&
                TableOf(boots, side) == WithBootSteps(TableOf(old(boots), side), added, construct) &&
                r == if k < |sorted| then InstantiationFailed(sorted[k], side) else Completed
      ensures forall s :: s != side ==> TableOf(boots, s) == TableOf(old(boots), s)
      ensures r != Completed ==>
                trace == old(trace) && unchanged(ListOf(old(sidedFeatures), side))
      ensures r == Completed ==>
                var all := sidedFeatures[side];
                side in boots &&
                (forall f :: f in all ==> f.enabled == stored(f.kind)) &&
                EnumerationOf(order, boots[side]) &&
                trace == old(trace) + [PopulatedFromDisk(all), WrittenToDisk(all)] + BootEvents(order, boots[side]) + RunEvents(all)
    {
      ghost var before := ListOf(sidedFeatures, side);
      var sorted, k;
      sorted, k, added := SortAndInstantiate(side, construct);
      order := [];
      if k < |sorted| {
        assert unchanged(before);
        r := InstantiationFailed(sorted[k], side);
        return;
      }
      ghost var sc2, sf2, ff2, b2 := sidedClasses, sidedFeatures, featureForClass, boots;
      order := ConfigureBootAndRun(side, stored);
      assert sidedClasses == sc2 && sidedFeatures == sf2 && featureForClass == ff2;
      TablesKept(b2, side);
      r := Completed;
    }

    /**
     * `run(side)`. With no classes for the side it returns at once. Otherwise
     * the side's classes are sorted by priority (stably) and instantiated in
     * that order up to the first constructor that throws; `added` are the new
     * instances. If every constructor returned, the configuration is read and
     * written for the whole instance list, the boot steps of enabled features
     * run (the table yielding its features in the order `order`), and then
     * each instance is run if enabled or skipped if not, in list order.
     */
    method Run(side: Side, construct: FeatureType -> Construction, stored: FeatureType -> bool)
      returns (r: RunResult, ghost added: seq<ModFeature>, ghost order: seq<ModFeature>)
      requires Valid()
      modifies this, ListOf(sidedFeatures, side)
      ensures Valid()
      ensures ListOf(old(sidedClasses), side) == [] ==>
                r == NothingToSetUp && added == [] &&
                sidedClasses == old(sidedClasses)[side := []] &&
                sidedFeatures == old(sidedFeatures)[side := ListOf(old(sidedFeatures), side)] &&
                featureForClass == old(featureForClass) && boots == old(boots) && trace == old(trace)
      ensures ListOf(old(sidedClasses), side) != [] ==>
                var sorted := SortByPriority(ListOf(old(sidedClasses), side));
                var k := FirstFailure(sorted, construct);
                sidedClasses == old(sidedClasses)[side := sorted] &&
                sidedFeatures == old(sidedFeatures)[side := ListOf(old(sidedFeatures), side) + added] &&
                |added| == k &&
                (forall i :: 0 <= i < k ==> fresh(added[i]) && added[i].kind == sorted[i]) &&
                featureForClass == Indexed(old(featureForClass), sorted[..k], added) &&
                TableOf(boots, side) == WithBootSteps(TableOf(old(boots), side), added, construct) &&
                r == if k < |sorted| then InstantiationFailed(sorted[k], side) else Completed
      ensures forall s :: s != side ==> TableOf(boots, s) == TableOf(old(boots), s)
      ensures r != Completed ==>
                trace == old(trace) && unchanged(ListOf(old(sidedFeatures), side))
      ensures r == Completed ==>
                var all := sidedFeatures[side];
                side in boots &&
                (forall f :: f in all ==> f.enabled == stored(f.kind)) &&
                EnumerationOf(order, boots[side]) &&
                trace == old(trace) + [PopulatedFromDisk(all), WrittenToDisk(all)] + BootEvents(order, boots[side]) + RunEvents(all)
    {
      var classes := ListOf(sidedClasses, side);
      if |classes| == 0 {
        sidedClasses := sidedClasses[side := classes];
        sidedFeatures := sidedFeatures[side := ListOf(sidedFeatures, side)];
        return NothingToSetUp, [], [];
      }
      r, added, order := SetUp(side, construct, stored);
    }
  }

}
