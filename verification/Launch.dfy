/** Java launch configurations: overlays evaluated with an explicit stack, and the roots they can refer to. */
module Launches {
  import opened Binary
  import opened Cbor
  import Blobs

  datatype PathEntry = Local(reference: Blobs.BlobRef) | External(uri: bytes, checksum: Option<bytes>)

  datatype Agent = Agent(reference: PathEntry, option: bytes)

  datatype EntryPoint = EntryPoint(mainClass: Option<bytes>, mainModule: Option<bytes>)

  /** One list contribution: a missing field, an explicit null, or items. */
  datatype Change<+T> = Unchanged | Clear | Append(items: seq<T>)

  /** One node of a launch tree. No `entry` keeps the entry point so far, and `Some(None)` clears it. */
  datatype Config = Config(condition: Item, entry: Option<Option<EntryPoint>>,
                           modulePath: Change<PathEntry>, classPath: Change<PathEntry>, agents: Change<Agent>,
                           jvmOptions: Change<bytes>, arguments: Change<bytes>, overlays: seq<Config>)

  datatype Launch = Launch(entry: Option<EntryPoint>, modulePath: seq<PathEntry>, classPath: seq<PathEntry>, agents: seq<Agent>,
                           jvmOptions: seq<bytes>, arguments: seq<bytes>)

  const NO_LAUNCH := Launch(None, [], [], [], [], [])

  // ---------- Applying one configuration ----------

  function Applied<T>(change: Change<T>, target: seq<T>): seq<T> {
    match change
    case Unchanged => target
    case Clear => []
    case Append(items) => target + items
  }

  /** An appended list may not grow past the element limit. */
  predicate ChangeFits<T>(change: Change<T>, target: seq<T>, limits: Limits) {
    change.Append? ==> limits.Elements(|target| + |change.items|)
  }

  function With(config: Config, launch: Launch): Launch {
    Launch(if config.entry.Some? then config.entry.value else launch.entry,
           Applied(config.modulePath, launch.modulePath), Applied(config.classPath, launch.classPath),
           Applied(config.agents, launch.agents), Applied(config.jvmOptions, launch.jvmOptions), Applied(config.arguments, launch.arguments))
  }

  predicate Fits(config: Config, launch: Launch, limits: Limits) {
    && ChangeFits(config.modulePath, launch.modulePath, limits) && ChangeFits(config.classPath, launch.classPath, limits)
    && ChangeFits(config.agents, launch.agents, limits)
    && ChangeFits(config.jvmOptions, launch.jvmOptions, limits) && ChangeFits(config.arguments, launch.arguments, limits)
  }

  // ---------- The recursive meaning ----------

  /** Depth-first pre-order; `waiting` configurations follow elsewhere in the tree. Unmatched subtrees are pruned. */
  function Visit(config: Config, launch: Launch, waiting: nat, matches: Item -> Option<bool>, limits: Limits): Option<Launch>
    decreases config, 1
  {
    match matches(config.condition)
    case None => None
    case Some(false) => Some(launch)
    case Some(true) =>
      if !Fits(config, launch, limits) || !limits.Elements(waiting + |config.overlays|) then None
      else VisitAll(config.overlays, With(config, launch), waiting, matches, limits)
  }

  function VisitAll(configs: seq<Config>, launch: Launch, waiting: nat, matches: Item -> Option<bool>, limits: Limits): Option<Launch>
    decreases configs, 0
  {
    if configs == [] then Some(launch)
    else
      match Visit(configs[0], launch, waiting + |configs| - 1, matches, limits)
      case None => None
      case Some(next) => VisitAll(configs[1..], next, waiting, matches, limits)
  }

  /** The whole evaluation; nothing inside when the root does not match. */
  function Evaluated(root: Config, matches: Item -> Option<bool>, limits: Limits): Option<Option<Launch>> {
    match matches(root.condition)
    case None => None
    case Some(false) => Some(None)
    case Some(true) =>
      match Visit(root, NO_LAUNCH, 0, matches, limits)
      case None => None
      case Some(launch) => if launch.entry == None then None else Some(Some(launch))
  }

  // ---------- The stack ----------

  /** How many configurations a tree holds. */
  function Size(config: Config): (r: nat)
    ensures r >= 1
    decreases config, 1
  {
    1 + SizeAll(config.overlays)
  }

  function SizeAll(configs: seq<Config>): nat
    decreases configs, 0
  {
    if configs == [] then 0 else Size(configs[0]) + SizeAll(configs[1..])
  }

  lemma {:induction false} SizeConcat(a: seq<Config>, b: seq<Config>)
    ensures SizeAll(a + b) == SizeAll(a) + SizeAll(b)
    decreases |a|
  {
    if a == [] {
      assert a + b == b;
    } else {
      SizeConcat(a[1..], b);
      assert (a + b)[1..] == a[1..] + b;
    }
  }

  lemma SizeFront(config: Config, rest: seq<Config>)
    ensures SizeAll([config] + rest) == 1 + SizeAll(config.overlays) + SizeAll(rest)
  {
    assert ([config] + rest)[0] == config && ([config] + rest)[1..] == rest;
  }

  /** Visiting a list and then another is visiting their concatenation. */
  lemma {:induction false} VisitConcat(a: seq<Config>, b: seq<Config>, launch: Launch, matches: Item -> Option<bool>, limits: Limits)
    ensures VisitAll(a + b, launch, 0, matches, limits)
            == match VisitAll(a, launch, |b|, matches, limits)
               case None => None
               case Some(next) => VisitAll(b, next, 0, matches, limits)
    decreases |a|
  {
    hide Visit;
    if a == [] {
      assert a + b == b;
    } else {
      assert (a + b)[0] == a[0] && (a + b)[1..] == a[1..] + b;
      var next := Visit(a[0], launch, |b| + |a| - 1, matches, limits);
      if next.Some? {
        VisitConcat(a[1..], b, next.value, matches, limits);
      }
    }
  }

  function Reversed(configs: seq<Config>): (r: seq<Config>)
    ensures |r| == |configs| && forall i :: 0 <= i < |r| ==> r[i] == configs[|configs| - 1 - i]
  {
    if configs == [] then [] else Reversed(configs[1..]) + [configs[0]]
  }

  /** Popping from the end of a reversed stack takes the first waiting configuration. */
  lemma StackTop(waiting: seq<Config>)
    requires waiting != []
    ensures Reversed(waiting) == Reversed(waiting[1..]) + [waiting[0]]
  {
  }

  lemma {:induction false} ReversedConcat(a: seq<Config>, b: seq<Config>)
    ensures Reversed(a + b) == Reversed(b) + Reversed(a)
    decreases |a|
  {
    if a == [] {
      assert a + b == b;
    } else {
      assert (a + b)[1..] == a[1..] + b && (a + b)[0] == a[0];
      ReversedConcat(a[1..], b);
    }
  }

  /** Evaluates with an explicit stack, pushing overlays in reverse. */
  method Evaluate(root: Config, matches: Item -> Option<bool>, limits: Limits) returns (r: Option<Option<Launch>>)
    ensures r == Evaluated(root, matches, limits)
  {
    hide With, Fits, Visit, VisitAll, Size, SizeAll, Reversed;
    var applies := matches(root.condition);
    if applies == None {
      return None;
    }
    if !applies.value {
      return Some(None);
    }
    var launch := NO_LAUNCH;
    var pending := [root];
    /** The stack from its top down. */
    ghost var waiting := [root];
    ghost var whole := Visit(root, NO_LAUNCH, 0, matches, limits);
    OneVisit(root, matches, limits);
    OneOnStack(root);
    while pending != []
      invariant pending == Reversed(waiting)
      invariant whole == VisitAll(waiting, launch, 0, matches, limits)
      decreases SizeAll(waiting)
    {
      StackTop(waiting);
      var config := pending[|pending| - 1];
      pending := pending[..|pending| - 1];
      ghost var rest := waiting[1..];
      assert waiting == [config] + rest;
      VisitTop(config, rest, launch, matches, limits);
      SizeFront(config, rest);
      SizeConcat(config.overlays, rest);
      waiting := rest;
      var here := matches(config.condition);
      if here == None {
        return None;
      }
      if !here.value {
        continue;
      }
      if !Fits(config, launch, limits) || !limits.Elements(|pending| + |config.overlays|) {
        return None;
      }
      launch := With(config, launch);
      ReversedConcat(config.overlays, rest);
      pending := pending + Reversed(config.overlays);
      waiting := config.overlays + rest;
    }
    assert waiting == [];
    NothingWaiting(launch, matches, limits);
    r := if launch.entry == None then None else Some(Some(launch));
  }

  lemma OneOnStack(root: Config)
    ensures Reversed([root]) == [root]
  {
    var rest: seq<Config> := [root][1..];
    assert rest == [];
  }

  lemma NothingWaiting(launch: Launch, matches: Item -> Option<bool>, limits: Limits)
    ensures VisitAll([], launch, 0, matches, limits) == Some(launch)
  {
  }

  lemma OneVisit(root: Config, matches: Item -> Option<bool>, limits: Limits)
    ensures Visit(root, NO_LAUNCH, 0, matches, limits) == VisitAll([root], NO_LAUNCH, 0, matches, limits)
  {
    hide Visit;
    var rest: seq<Config> := [root][1..];
    assert rest == [];
  }

  /** Visiting the top of the stack and then the rest is visiting its overlays in front of the rest. */
  lemma VisitTop(config: Config, rest: seq<Config>, launch: Launch, matches: Item -> Option<bool>, limits: Limits)
    ensures VisitAll([config] + rest, launch, 0, matches, limits)
            == match matches(config.condition)
               case None => None
               case Some(false) => VisitAll(rest, launch, 0, matches, limits)
               case Some(true) =>
                 if !Fits(config, launch, limits) || !limits.Elements(|rest| + |config.overlays|) then None
                 else VisitAll(config.overlays + rest, With(config, launch), 0, matches, limits)
  {
    hide With, Fits;
    assert ([config] + rest)[1..] == rest;
    VisitConcat(config.overlays, rest, With(config, launch), matches, limits);
  }

  // ---------- Lists since the last clear ----------

  /** The configurations that take effect, in order. */
  function Visited(configs: seq<Config>, matches: Item -> Option<bool>): seq<Config>
    decreases configs
  {
    if configs == [] then []
    else
      (if matches(configs[0].condition) == Some(true) then [configs[0]] + Visited(configs[0].overlays, matches) else [])
      + Visited(configs[1..], matches)
  }

  /** The items appended since the last clear. */
  function SinceClear<T>(changes: seq<Change<T>>): seq<T> {
    if changes == [] then []
    else
      match changes[|changes| - 1]
      case Unchanged => SinceClear(changes[..|changes| - 1])
      case Clear => []
      case Append(items) => SinceClear(changes[..|changes| - 1]) + items
  }

  /** The launch that a sequence of configurations builds, list by list. */
  function Built(configs: seq<Config>): Launch {
    if configs == [] then NO_LAUNCH else With(configs[|configs| - 1], Built(configs[..|configs| - 1]))
  }

  function ClassPaths(configs: seq<Config>): seq<Change<PathEntry>> {
    if configs == [] then [] else ClassPaths(configs[..|configs| - 1]) + [configs[|configs| - 1].classPath]
  }

  function ModulePaths(configs: seq<Config>): seq<Change<PathEntry>> {
    if configs == [] then [] else ModulePaths(configs[..|configs| - 1]) + [configs[|configs| - 1].modulePath]
  }

  function AgentLists(configs: seq<Config>): seq<Change<Agent>> {
    if configs == [] then [] else AgentLists(configs[..|configs| - 1]) + [configs[|configs| - 1].agents]
  }

  function Options(configs: seq<Config>): seq<Change<bytes>> {
    if configs == [] then [] else Options(configs[..|configs| - 1]) + [configs[|configs| - 1].jvmOptions]
  }

  function Arguments(configs: seq<Config>): seq<Change<bytes>> {
    if configs == [] then [] else Arguments(configs[..|configs| - 1]) + [configs[|configs| - 1].arguments]
  }

  lemma OneMoreChange<T>(changes: seq<Change<T>>, change: Change<T>)
    ensures SinceClear(changes + [change]) == Applied(change, SinceClear(changes))
  {
    assert (changes + [change])[..|changes|] == changes;
  }

  /** Each list holds exactly what was appended since it was last cleared. */
  lemma {:induction false} BuiltIsSinceClear(configs: seq<Config>)
    ensures Built(configs).classPath == SinceClear(ClassPaths(configs))
    ensures Built(configs).modulePath == SinceClear(ModulePaths(configs))
    ensures Built(configs).agents == SinceClear(AgentLists(configs))
    ensures Built(configs).jvmOptions == SinceClear(Options(configs))
    ensures Built(configs).arguments == SinceClear(Arguments(configs))
    decreases |configs|
  {
    if configs == [] {
      NoChanges();
    } else {
      hide SinceClear, Applied;
      var front, last := configs[..|configs| - 1], configs[|configs| - 1];
      BuiltIsSinceClear(front);
      OneMoreChange(ClassPaths(front), last.classPath);
      OneMoreChange(ModulePaths(front), last.modulePath);
      OneMoreChange(AgentLists(front), last.agents);
      OneMoreChange(Options(front), last.jvmOptions);
      OneMoreChange(Arguments(front), last.arguments);
    }
  }

  lemma NoChanges()
    ensures Built([]) == NO_LAUNCH
    ensures SinceClear<PathEntry>([]) == [] && SinceClear<Agent>([]) == [] && SinceClear<bytes>([]) == []
  {
  }

  lemma BuiltOneMore(before: seq<Config>, config: Config)
    ensures Built(before + [config]) == With(config, Built(before))
  {
    hide With;
    assert (before + [config])[..|before|] == before;
  }

  lemma VisitedUnfold(configs: seq<Config>, matches: Item -> Option<bool>)
    requires configs != []
    ensures
      var first, rest := configs[0], Visited(configs[1..], matches);
      Visited(configs, matches)
      == (if matches(first.condition) == Some(true) then [first] + Visited(first.overlays, matches) else []) + rest
  {
  }

  lemma FourParts<T>(a: seq<T>, b: seq<T>, c: seq<T>, d: seq<T>)
    ensures a + ((b + c) + d) == ((a + b) + c) + d && a + ([] + d) == a + d
  {
  }

  lemma VisitedFront(configs: seq<Config>, matches: Item -> Option<bool>, before: seq<Config>)
    requires configs != []
    ensures
      var first, rest := configs[0], Visited(configs[1..], matches);
      before + Visited(configs, matches)
      == if matches(first.condition) == Some(true) then ((before + [first]) + Visited(first.overlays, matches)) + rest else before + rest
  {
    hide Visited;
    VisitedUnfold(configs, matches);
    FourParts(before, [configs[0]], Visited(configs[0].overlays, matches), Visited(configs[1..], matches));
  }

  /** A list of visited configurations applied after some already applied. */
  lemma {:induction false} VisitBuilds(configs: seq<Config>, before: seq<Config>, waiting: nat, matches: Item -> Option<bool>, limits: Limits)
    requires VisitAll(configs, Built(before), waiting, matches, limits).Some?
    ensures VisitAll(configs, Built(before), waiting, matches, limits).value == Built(before + Visited(configs, matches))
    decreases configs
  {
    hide With, Fits, Built, Visited;
    if configs == [] {
      NothingVisited(matches, before);
    } else {
      var first := configs[0];
      VisitedFront(configs, matches, before);
      if matches(first.condition) == Some(true) {
        BuiltOneMore(before, first);
        VisitBuilds(first.overlays, before + [first], waiting + |configs| - 1, matches, limits);
        VisitBuilds(configs[1..], (before + [first]) + Visited(first.overlays, matches), waiting, matches, limits);
      } else {
        VisitBuilds(configs[1..], before, waiting, matches, limits);
      }
    }
  }

  lemma NothingVisited(matches: Item -> Option<bool>, before: seq<Config>)
    ensures before + Visited([], matches) == before
  {
  }

  /** An evaluated launch is built from the matching configurations in depth-first pre-order. */
  lemma EvaluatedIsBuilt(root: Config, matches: Item -> Option<bool>, limits: Limits)
    requires Evaluated(root, matches, limits).Some? && Evaluated(root, matches, limits).value.Some?
    ensures Evaluated(root, matches, limits).value.value == Built(Visited([root], matches))
  {
    hide With, Fits, Visit;
    OneVisit(root, matches, limits);
    var none: seq<Config> := [];
    VisitBuilds([root], none, 0, matches, limits);
    assert none + Visited([root], matches) == Visited([root], matches);
  }

  // ---------- Every reference is declared ----------

  function LocalsIn(entries: seq<PathEntry>): set<Blobs.BlobRef> {
    set entry | entry in entries && entry.Local? :: entry.reference
  }

  function ChangeLocals(change: Change<PathEntry>): set<Blobs.BlobRef> {
    if change.Append? then LocalsIn(change.items) else {}
  }

  function AgentLocals(agents: seq<Agent>): set<Blobs.BlobRef> {
    set agent | agent in agents && agent.reference.Local? :: agent.reference.reference
  }

  function OwnReferences(config: Config): set<Blobs.BlobRef> {
    ChangeLocals(config.modulePath) + ChangeLocals(config.classPath)
    + if config.agents.Append? then AgentLocals(config.agents.items) else {}
  }

  /** The references of every configuration, matching or not, cleared later or not. */
  function References(configs: seq<Config>): set<Blobs.BlobRef>
    decreases configs
  {
    if configs == [] then {} else OwnReferences(configs[0]) + References(configs[0].overlays) + References(configs[1..])
  }

  /** Collects the references with a stack of its own. */
  method ResourceReferences(root: Config) returns (references: set<Blobs.BlobRef>)
    ensures references == References([root])
  {
    hide OwnReferences, SizeAll, Reversed;
    references := {};
    var pending := [root];
    ghost var waiting := [root];
    OneOnStack(root);
    while pending != []
      invariant pending == Reversed(waiting)
      invariant references + References(waiting) == References([root])
      decreases SizeAll(waiting)
    {
      StackTop(waiting);
      var config := pending[|pending| - 1];
      pending := pending[..|pending| - 1];
      ghost var rest := waiting[1..];
      assert waiting == [config] + rest;
      references := references + OwnReferences(config);
      ReferencesConcat(Reversed(config.overlays), rest);
      ReferencesReversed(config.overlays);
      SizeFront(config, rest);
      SizeConcat(Reversed(config.overlays), rest);
      SizeReversed(config.overlays);
      ReversedConcat(Reversed(config.overlays), rest);
      ReversedTwice(config.overlays);
      pending := pending + config.overlays;
      waiting := Reversed(config.overlays) + rest;
    }
    assert waiting == [];
  }

  lemma {:induction false} ReferencesConcat(a: seq<Config>, b: seq<Config>)
    ensures References(a + b) == References(a) + References(b)
    decreases |a|
  {
    hide OwnReferences;
    if a == [] {
      assert a + b == b;
    } else {
      ReferencesConcat(a[1..], b);
      assert (a + b)[1..] == a[1..] + b && (a + b)[0] == a[0];
    }
  }

  lemma {:induction false} ReferencesReversed(configs: seq<Config>)
    ensures References(Reversed(configs)) == References(configs)
    decreases |configs|
  {
    hide OwnReferences;
    if configs != [] {
      ReferencesReversed(configs[1..]);
      ReferencesConcat(Reversed(configs[1..]), [configs[0]]);
      var rest: seq<Config> := [configs[0]][1..];
      assert rest == [] && References(rest) == {};
    }
  }

  lemma {:induction false} SizeReversed(configs: seq<Config>)
    ensures SizeAll(Reversed(configs)) == SizeAll(configs)
    decreases |configs|
  {
    if configs != [] {
      SizeReversed(configs[1..]);
      SizeConcat(Reversed(configs[1..]), [configs[0]]);
      var rest: seq<Config> := [configs[0]][1..];
      assert rest == [] && SizeAll(rest) == 0;
    }
  }

  lemma ReversedTwice(configs: seq<Config>)
    ensures Reversed(Reversed(configs)) == configs
  {
  }

  lemma {:induction false} VisitedAreDeclared(configs: seq<Config>, matches: Item -> Option<bool>, config: Config)
    requires config in Visited(configs, matches)
    ensures OwnReferences(config) <= References(configs)
    decreases configs
  {
    hide OwnReferences;
    var first := configs[0];
    if config in Visited(configs[1..], matches) {
      VisitedAreDeclared(configs[1..], matches, config);
    } else if config != first {
      assert config in Visited(first.overlays, matches);
      VisitedAreDeclared(first.overlays, matches, config);
    }
  }

  function LaunchReferences(launch: Launch): set<Blobs.BlobRef> {
    LocalsIn(launch.modulePath) + LocalsIn(launch.classPath) + AgentLocals(launch.agents)
  }

  lemma {:induction false} BuiltIsDeclared(configs: seq<Config>, declared: set<Blobs.BlobRef>)
    requires forall config :: config in configs ==> OwnReferences(config) <= declared
    ensures LaunchReferences(Built(configs)) <= declared
    decreases |configs|
  {
    if configs != [] {
      var front, last := configs[..|configs| - 1], configs[|configs| - 1];
      BuiltIsDeclared(front, declared);
      assert last in configs;
      LastIsDeclared(last, Built(front), declared);
    }
  }

  lemma LastIsDeclared(config: Config, launch: Launch, declared: set<Blobs.BlobRef>)
    requires OwnReferences(config) <= declared && LaunchReferences(launch) <= declared
    ensures LaunchReferences(With(config, launch)) <= declared
  {
    AppliedLocals(config.modulePath, launch.modulePath);
    AppliedLocals(config.classPath, launch.classPath);
    AppliedAgents(config.agents, launch.agents);
  }

  lemma AppliedLocals(change: Change<PathEntry>, target: seq<PathEntry>)
    ensures LocalsIn(Applied(change, target)) <= ChangeLocals(change) + LocalsIn(target)
  {
  }

  lemma AppliedAgents(change: Change<Agent>, target: seq<Agent>)
    ensures AgentLocals(Applied(change, target)) <= (if change.Append? then AgentLocals(change.items) else {}) + AgentLocals(target)
  {
  }

  /** Whatever the context, an evaluated launch refers only to roots that the configuration declares. */
  lemma LaunchIsDeclared(root: Config, matches: Item -> Option<bool>, limits: Limits)
    requires Evaluated(root, matches, limits).Some? && Evaluated(root, matches, limits).value.Some?
    ensures LaunchReferences(Evaluated(root, matches, limits).value.value) <= References([root])
  {
    hide OwnReferences, LaunchReferences, Evaluated, Built;
    EvaluatedIsBuilt(root, matches, limits);
    forall config | config in Visited([root], matches) ensures OwnReferences(config) <= References([root]) {
      VisitedAreDeclared([root], matches, config);
    }
    BuiltIsDeclared(Visited([root], matches), References([root]));
  }
}
