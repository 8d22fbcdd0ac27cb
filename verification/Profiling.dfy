/** Core/Profiling.cpp in place: the call tree of CallInfo objects, the flat summary, the stack of tags, and the scope
    objects whose constructor and destructor keep them up to date. Proved against ProfilingTree.
*/
module Profiling {
  import opened ProfilingTree

  /** Profiling::CallInfo */
  class CallInfo {
    var children: map<Tag, CallInfo>
    var info: Info

    constructor ()
      ensures children == map[] && info == NO_INFO
    {
      children, info := map[], NO_INFO;
    }
  }

  // ---------- Links by value ----------

  /** The node object `c` stands for path `p`. */
  ghost predicate StandsFor(paths: seq<Path>, nodes: seq<CallInfo>, p: Path, c: CallInfo) {
    exists j :: 0 <= j < |paths| == |nodes| && paths[j] == p && nodes[j] == c
  }

  /** In a map of children, tag `k` leads to the node of path `p`, and is there only if `p` has a node. */
  ghost predicate Leads(paths: seq<Path>, nodes: seq<CallInfo>, children: map<Tag, CallInfo>, k: Tag, p: Path) {
    if p in paths then k in children && StandsFor(paths, nodes, p, children[k]) else k !in children
  }

  /** The call tree hangs together: `roots` are the top-level nodes, `kids[i]` the children of node `i`. */
  ghost predicate Hangs(paths: seq<Path>, nodes: seq<CallInfo>, kids: seq<map<Tag, CallInfo>>,
                        roots: map<Tag, CallInfo>) {
    && |paths| == |nodes| == |kids|
    && (forall i, j :: 0 <= i < j < |paths| ==> paths[i] != paths[j] && nodes[i] != nodes[j])
    && (forall i :: 0 <= i < |paths| ==> paths[i] != [] && (|paths[i]| > 1 ==> Parent(paths[i]) in paths))
    && (forall k :: Leads(paths, nodes, roots, k, [k]))
    && (forall i, k :: 0 <= i < |paths| ==> Leads(paths, nodes, kids[i], k, paths[i] + [k]))
  }

  lemma HangsFacts(paths: seq<Path>, nodes: seq<CallInfo>, kids: seq<map<Tag, CallInfo>>, roots: map<Tag, CallInfo>)
    requires Hangs(paths, nodes, kids, roots)
    ensures |paths| == |nodes| == |kids|
    ensures forall i, j :: 0 <= i < j < |paths| ==> paths[i] != paths[j] && nodes[i] != nodes[j]
  {
  }

  lemma StandsForAppend(paths: seq<Path>, nodes: seq<CallInfo>, p: Path, c: CallInfo, q: Path, d: CallInfo)
    requires |paths| == |nodes|
    ensures StandsFor(paths, nodes, q, d) ==> StandsFor(paths + [p], nodes + [c], q, d)
    ensures StandsFor(paths + [p], nodes + [c], p, c)
  {
    if StandsFor(paths, nodes, q, d) {
      var j :| 0 <= j < |paths| == |nodes| && paths[j] == q && nodes[j] == d;
      assert (paths + [p])[j] == q && (nodes + [c])[j] == d;
    }
    assert (paths + [p])[|paths|] == p && (nodes + [c])[|paths|] == c;
  }

  /** A map of children that has nothing to do with a new path. */
  lemma LeadsElsewhere(paths: seq<Path>, nodes: seq<CallInfo>, children: map<Tag, CallInfo>, k: Tag, q: Path, p: Path,
                       c: CallInfo)
    requires |paths| == |nodes| && Leads(paths, nodes, children, k, q) && q != p
    ensures Leads(paths + [p], nodes + [c], children, k, q)
  {
    if q in paths { StandsForAppend(paths, nodes, p, c, q, children[k]); }
  }

  /** The map of children that a new node is added to. */
  lemma LeadsNew(paths: seq<Path>, nodes: seq<CallInfo>, children: map<Tag, CallInfo>, k: Tag, k': Tag, before: Path,
                 c: CallInfo)
    requires |paths| == |nodes| && Leads(paths, nodes, children, k', before + [k'])
    ensures Leads(paths + [before + [k]], nodes + [c], children[k := c], k', before + [k'])
  {
    var p := before + [k];
    StandsForAppend(paths, nodes, p, c, p, c);
    if k' != k {
      assert (before + [k'])[|before|] != p[|before|];
      LeadsElsewhere(paths, nodes, children, k', before + [k'], p, c);
    }
  }

  /** A new node has no children. */
  lemma LeadsNowhere(paths: seq<Path>, nodes: seq<CallInfo>, kids: seq<map<Tag, CallInfo>>, roots: map<Tag, CallInfo>,
                     p: Path, c: CallInfo, k: Tag)
    requires Hangs(paths, nodes, kids, roots) && p !in paths && p != []
    ensures Leads(paths + [p], nodes + [c], map[], k, p + [k])
  {
    var q := p + [k];
    assert Parent(q) == p && |q| > 1 && q != p;
    assert forall j :: 0 <= j < |paths| && |paths[j]| > 1 ==> Parent(paths[j]) in paths;
  }

  /** A new top-level node. */
  lemma HangRoot(paths: seq<Path>, nodes: seq<CallInfo>, kids: seq<map<Tag, CallInfo>>, roots: map<Tag, CallInfo>,
                 k: Tag, c: CallInfo)
    requires Hangs(paths, nodes, kids, roots) && [k] !in paths && c !in nodes
    ensures Hangs(paths + [[k]], nodes + [c], kids + [map[]], roots[k := c])
  {
    hide Leads, StandsFor;
    forall k'
      ensures Leads(paths + [[k]], nodes + [c], roots[k := c], k', [k'])
    {
      assert [] + [k] == [k] && [] + [k'] == [k'];
      LeadsNew(paths, nodes, roots, k, k', [], c);
    }
    forall i, k' | 0 <= i <= |paths|
      ensures Leads(paths + [[k]], nodes + [c], (kids + [map[]])[i], k', (paths + [[k]])[i] + [k'])
    {
      if i < |paths| {
        assert |paths[i] + [k']| > 1;
        LeadsElsewhere(paths, nodes, kids[i], k', paths[i] + [k'], [k], c);
      } else {
        LeadsNowhere(paths, nodes, kids, roots, [k], c, k');
      }
    }
  }

  /** A new child of node `at`. */
  lemma HangChild(paths: seq<Path>, nodes: seq<CallInfo>, kids: seq<map<Tag, CallInfo>>, roots: map<Tag, CallInfo>,
                  at: nat, k: Tag, c: CallInfo)
    requires Hangs(paths, nodes, kids, roots) && at < |paths| && paths[at] + [k] !in paths && c !in nodes
    ensures Hangs(paths + [paths[at] + [k]], nodes + [c], kids[at := kids[at][k := c]] + [map[]], roots)
  {
    hide Leads, StandsFor;
    var p := paths[at] + [k];
    assert Parent(p) == paths[at];
    forall k'
      ensures Leads(paths + [p], nodes + [c], roots, k', [k'])
    {
      assert |p| > 1;
      LeadsElsewhere(paths, nodes, roots, k', [k'], p, c);
    }
    forall i, k' | 0 <= i <= |paths|
      ensures Leads(paths + [p], nodes + [c], (kids[at := kids[at][k := c]] + [map[]])[i], k', (paths + [p])[i] + [k'])
    {
      if i == |paths| {
        LeadsNowhere(paths, nodes, kids, roots, p, c, k');
      } else if i == at {
        LeadsNew(paths, nodes, kids[at], k, k', paths[at], c);
      } else {
        assert Parent(paths[i] + [k']) == paths[i];
        LeadsElsewhere(paths, nodes, kids[i], k', paths[i] + [k'], p, c);
      }
    }
  }

  /** The call tree with the numbers of its nodes. */
  ghost function Entries(paths: seq<Path>, infos: seq<Info>): (tree: seq<Entry>)
    requires |paths| == |infos|
    ensures |tree| == |paths|
  {
    seq(|paths|, i requires 0 <= i < |paths| => Entry(paths[i], infos[i]))
  }

  lemma PositionIn(paths: seq<Path>, infos: seq<Info>, p: Path)
    requires |paths| == |infos|
    ensures var j := Position(Entries(paths, infos), p); if p in paths then j < |paths|
        && paths[j] == p else j == |paths|
  {
    var tree := Entries(paths, infos);
    var j := Position(tree, p);
    if p in paths {
      var i :| 0 <= i < |paths| && paths[i] == p;
      assert tree[i].path == p;
    }
  }

  // ---------- The profiler ----------

  /** A Profiling object: the members that its constructor sets. */
  class Scope {
    const tag: Tag
    const start: real
    const previous: CallInfo?
    const call: CallInfo

    constructor (tag: Tag, start: real, previous: CallInfo?, call: CallInfo)
      ensures this.tag == tag && this.start == start && this.previous == previous && this.call == call
    {
      this.tag, this.start, this.previous, this.call := tag, start, previous, call;
    }
  }

  ghost function Frames(scopes: seq<Scope>): (r: seq<Frame>)
    ensures |r| == |scopes|
  {
    seq(|scopes|, i requires 0 <= i < |scopes| => Frame(scopes[i].tag, scopes[i].start))
  }

  ghost function TagsOf(scopes: seq<Scope>): (r: Path)
    ensures |r| == |scopes| && r == Tags(Frames(scopes))
  {
    seq(|scopes|, i requires 0 <= i < |scopes| => scopes[i].tag)
  }

  ghost function Innermost(scopes: seq<Scope>): CallInfo? {
    if scopes == [] then null else scopes[|scopes| - 1].call
  }

  /** The live scopes know their nodes, and the node to go back to. */
  ghost predicate Stacked(paths: seq<Path>, nodes: seq<CallInfo>, scopes: seq<Scope>) {
    forall n :: 0 <= n < |scopes| ==>
      scopes[n].previous == Innermost(scopes[..n]) && StandsFor(paths, nodes, TagsOf(scopes[..n + 1]), scopes[n].call)
  }

  /** Entering a scope: nodes are only added. */
  lemma StackedPush(paths: seq<Path>, nodes: seq<CallInfo>, scopes: seq<Scope>, paths': seq<Path>,
                    nodes': seq<CallInfo>, scope: Scope)
    requires Stacked(paths, nodes, scopes) && |paths| == |nodes| && |paths'| == |nodes'|
    requires paths <= paths' && nodes <= nodes'
    requires scope.previous == Innermost(scopes) && StandsFor(paths', nodes', TagsOf(scopes) + [scope.tag], scope.call)
    ensures Stacked(paths', nodes', scopes + [scope])
  {
    var scopes' := scopes + [scope];
    forall n | 0 <= n < |scopes'|
      ensures scopes'[n].previous == Innermost(scopes'[..n])
          && StandsFor(paths', nodes', TagsOf(scopes'[..n + 1]), scopes'[n].call)
    {
      if n < |scopes| {
        assert scopes'[..n] == scopes[..n] && scopes'[..n + 1] == scopes[..n + 1];
        assert StandsFor(paths, nodes, TagsOf(scopes[..n + 1]), scopes[n].call);
        var j :| 0 <= j < |paths| == |nodes| && paths[j] == TagsOf(scopes[..n + 1]) && nodes[j] == scopes[n].call;
        assert paths'[j] == paths[j] && nodes'[j] == nodes[j];
      } else {
        assert scopes'[..n] == scopes && TagsOf(scopes'[..n + 1]) == TagsOf(scopes) + [scope.tag];
      }
    }
  }

  lemma StackedPop(paths: seq<Path>, nodes: seq<CallInfo>, scopes: seq<Scope>)
    requires Stacked(paths, nodes, scopes) && scopes != []
    ensures var n := |scopes| - 1;
            && Stacked(paths, nodes, scopes[..n]) && scopes[n].previous == Innermost(scopes[..n])
            && StandsFor(paths, nodes, TagsOf(scopes), scopes[n].call)
  {
    var n := |scopes| - 1;
    assert scopes[..n + 1] == scopes;
    forall m | 0 <= m < n
      ensures scopes[..n][m].previous == Innermost(scopes[..n][..m])
      ensures StandsFor(paths, nodes, TagsOf(scopes[..n][..m + 1]), scopes[..n][m].call)
    {
      assert scopes[..n][..m] == scopes[..m] && scopes[..n][..m + 1] == scopes[..m + 1];
    }
  }

  lemma ScopePush(scopes: seq<Scope>, scope: Scope)
    ensures TagsOf(scopes + [scope]) == TagsOf(scopes) + [scope.tag] && Innermost(scopes + [scope]) == scope.call
  {
  }

  lemma EnterTree(paths: seq<Path>, infos: seq<Info>, flat: map<Tag, Info>, scopes: seq<Scope>, tag: Tag, time: real,
                  paths': seq<Path>, infos': seq<Info>, scope: Scope)
    requires |paths| == |infos| && |paths'| == |infos'| && scope.tag == tag && scope.start == time
    requires var p := TagsOf(scopes) + [tag];
             if p in paths then paths' == paths && infos' == infos
             else paths' == paths + [p] && infos' == infos + [NO_INFO]
    ensures ProfilingTree.Enter(State(Entries(paths, infos), flat, Frames(scopes)), tag, time)
         == State(Entries(paths', infos'), flat, Frames(scopes + [scope]))
  {
    PositionIn(paths, infos, TagsOf(scopes) + [tag]);
    assert Frames(scopes + [scope]) == Frames(scopes) + [Frame(tag, time)];
  }

  /** The profiler after the innermost of `scopes`, which belongs to node `at`, has ended. */
  ghost function LeftAt(paths: seq<Path>, infos: seq<Info>, flat: map<Tag, Info>, scopes: seq<Scope>, at: nat,
                        time: real): State
    requires |paths| == |infos| && scopes != [] && at < |paths|
  {
    var n := |scopes| - 1;
    var f, delta := scopes[n], time - scopes[n].start;
    State(Entries(paths, infos[at := Taken(infos[at], delta, true)]),
          flat[f.tag := Taken(FlatInfo(flat, f.tag), delta, f.tag !in TagsOf(scopes)[..n])],
          Frames(scopes[..n]))
  }

  lemma LeaveTree(paths: seq<Path>, infos: seq<Info>, flat: map<Tag, Info>, scopes: seq<Scope>, at: nat, time: real)
    requires |paths| == |infos| && scopes != [] && at < |paths| && paths[at] == TagsOf(scopes)
    requires forall i, j :: 0 <= i < j < |paths| ==> paths[i] != paths[j]
    ensures Position(Entries(paths, infos), TagsOf(scopes)) == at
    ensures ProfilingTree.Leave(State(Entries(paths, infos), flat, Frames(scopes)), time)
         == LeftAt(paths, infos, flat, scopes, at, time)
  {
    PositionIn(paths, infos, TagsOf(scopes));
    var n := |scopes| - 1;
    assert Frames(scopes)[..n] == Frames(scopes[..n]);
    assert Tags(Frames(scopes)[..n]) == TagsOf(scopes)[..n];
  }

  /** The static members of Profiling. */
  class Profiler {
    var tags: map<Tag, Info>
    var callStacks: map<Tag, CallInfo>
    var callStack: seq<Tag>
    var current: CallInfo?

    ghost var paths: seq<Path>
    ghost var nodes: seq<CallInfo>
    ghost var scopes: seq<Scope>

    ghost function Kids(): (r: seq<map<Tag, CallInfo>>)
      reads this`nodes, nodes
    {
      var nodes := nodes;
      seq(|nodes|, i requires 0 <= i < |nodes| reads nodes => nodes[i].children)
    }

    ghost function Infos(): (r: seq<Info>)
      reads this`nodes, nodes
      ensures |r| == |nodes|
    {
      var nodes := nodes;
      seq(|nodes|, i requires 0 <= i < |nodes| reads nodes => nodes[i].info)
    }

    ghost predicate Valid()
      reads this, nodes
    {
      && Hangs(paths, nodes, Kids(), callStacks)
      && Stacked(paths, nodes, scopes)
      && callStack == TagsOf(scopes) && current == Innermost(scopes)
    }

    ghost function St(): State
      requires |paths| == |nodes|
      reads this, nodes
    {
      State(Entries(paths, Infos()), tags, Frames(scopes))
    }

    constructor ()
      ensures Valid() && St() == EMPTY
    {
      tags, callStacks, callStack, current := map[], map[], [], null;
      paths, nodes, scopes := [], [], [];
    }

    /** operator[] on the top-level nodes, for a tag that is not there. */
    method NewRoot(tag: Tag) returns (call: CallInfo)
      requires Hangs(paths, nodes, Kids(), callStacks) && [tag] !in paths
      modifies this`callStacks, this`paths, this`nodes
      ensures Hangs(paths, nodes, Kids(), callStacks)
      ensures fresh(call) && paths == old(paths) + [[tag]] && nodes == old(nodes) + [call]
          && Infos() == old(Infos()) + [NO_INFO]
      ensures callStacks == old(callStacks)[tag := call]
    {
      hide Hangs;
      ghost var before, roots := Kids(), callStacks;
      HangsFacts(paths, nodes, before, roots);
      call := new CallInfo();
      HangRoot(paths, nodes, before, roots, tag, call);
      callStacks := callStacks[tag := call];
      paths, nodes := paths + [[tag]], nodes + [call];
      assert Kids() == before + [map[]];
    }

    /** operator[] on the children of a node, for a tag that is not there. */
    method NewChild(node: CallInfo, tag: Tag, ghost at: nat) returns (call: CallInfo)
      requires Hangs(paths, nodes, Kids(), callStacks) && at < |paths| && nodes[at] == node
          && paths[at] + [tag] !in paths
      modifies this`paths, this`nodes, node
      ensures Hangs(paths, nodes, Kids(), callStacks)
      ensures paths == old(paths) + [old(paths)[at] + [tag]] && nodes == old(nodes) + [call]
      ensures fresh(call) && Infos() == old(Infos()) + [NO_INFO] && node.children == old(node.children)[tag := call]
    {
      hide Hangs;
      ghost var before, roots := Kids(), callStacks;
      HangsFacts(paths, nodes, before, roots);
      call := new CallInfo();
      HangChild(paths, nodes, before, roots, at, tag, call);
      node.children := node.children[tag := call];
      ghost var p := paths[at] + [tag];
      paths, nodes := paths + [p], nodes + [call];
      assert Kids() == before[at := before[at][tag := call]] + [map[]];
    }

    lemma CurrentAt() returns (at: nat)
      requires Valid() && current != null
      ensures at < |paths| == |nodes| && paths[at] == callStack && nodes[at] == current
    {
      var n := |scopes| - 1;
      assert scopes[..n + 1] == scopes;
      assert StandsFor(paths, nodes, TagsOf(scopes[..n + 1]), scopes[n].call);
      at :| 0 <= at < |paths| == |nodes| && paths[at] == callStack && nodes[at] == current;
    }

    /** What the maps of children say about the path of a new innermost scope. */
    lemma ChildAt(tag: Tag)
      requires Valid()
      ensures Leads(paths, nodes, if current == null then callStacks else current.children, tag, callStack + [tag])
      ensures current != null ==> current in nodes
    {
      if current == null {
        assert scopes == [] && callStack + [tag] == [tag];
      } else {
        var at := CurrentAt();
        assert Leads(paths, nodes, Kids()[at], tag, paths[at] + [tag]);
      }
    }

    /** The node for a new innermost scope, created if there is none. */
    method CallFor(tag: Tag) returns (call: CallInfo)
      requires Valid()
      modifies this`callStacks, this`paths, this`nodes, nodes
      ensures Hangs(paths, nodes, Kids(), callStacks)
      ensures StandsFor(paths, nodes, callStack + [tag], call)
      ensures if callStack + [tag] in old(paths) then
                paths == old(paths) && nodes == old(nodes) && Infos() == old(Infos())
              else
                && paths == old(paths) + [callStack + [tag]] && nodes == old(nodes) + [call]
                && Infos() == old(Infos()) + [NO_INFO]
    {
      hide Hangs, Stacked;
      ghost var p := callStack + [tag];
      ChildAt(tag);
      SameLength();
      if current == null {
        assert p == [tag] by { assert callStack == []; }
        if tag !in callStacks {
          call := NewRoot(tag);
          StandsForAppend(old(paths), old(nodes), p, call, p, call);
        } else {
          call := callStacks[tag];
        }
      } else {
        ghost var at := CurrentAt();
        if tag !in current.children {
          call := NewChild(current, tag, at);
          StandsForAppend(old(paths), old(nodes), p, call, p, call);
        } else {
          call := current.children[tag];
        }
      }
    }

    lemma SameLength()
      requires Valid()
      ensures |paths| == |nodes|
    {
    }

    /** Profiling::Profiling: a scope begins. */
    method Enter(tag: Tag, time: real) returns (scope: Scope)
      requires Valid()
      modifies this, nodes
      ensures Valid() && scopes == old(scopes) + [scope]
      ensures St() == ProfilingTree.Enter(old(St()), tag, time)
    {
      hide Hangs, Stacked, StandsFor, Entries, Frames, TagsOf, Innermost, Infos, Kids, ProfilingTree.Enter;
      SameLength();
      ghost var paths0, nodes0, infos0, scopes0 := paths, nodes, Infos(), scopes;
      var previous := current;
      var call := CallFor(tag);
      scope := new Scope(tag, time, previous, call);
      ghost var infos, kids := Infos(), Kids();
      ScopePush(scopes0, scope);
      StackedPush(paths0, nodes0, scopes0, paths, nodes, scope);
      EnterTree(paths0, infos0, tags, scopes0, tag, time, paths, infos, scope);
      current := call;
      callStack := callStack + [tag];
      scopes := scopes + [scope];
      assert Infos() == infos && Kids() == kids;
    }

    /** Counts a scope in its node. */
    method Book(call: CallInfo, delta: real, ghost at: nat)
      requires at < |nodes| && nodes[at] == call && forall i, j :: 0 <= i < j < |nodes| ==> nodes[i] != nodes[j]
      modifies call`info
      ensures Infos() == old(Infos())[at := Taken(old(Infos())[at], delta, true)] && Kids() == old(Kids())
    {
      call.info := Taken(call.info, delta, true);
    }

    /** Profiling::~Profiling: the innermost scope ends. */
    method Leave(scope: Scope, time: real)
      requires Valid() && scopes != [] && scope == scopes[|scopes| - 1]
      modifies this, nodes
      ensures Valid() && scopes == old(scopes[..|scopes| - 1]) && nodes == old(nodes)
      ensures Position(old(St().tree), old(callStack)) < |old(St().tree)|
      ensures St() == ProfilingTree.Leave(old(St()), time)
    {
      hide Hangs, Stacked, StandsFor, Entries, Frames, ProfilingTree.Leave, Taken;
      SameLength();
      StackedPop(paths, nodes, scopes);
      ghost var at := CurrentAt();
      DistinctNodes();
      ghost var infos := Infos();
      LeaveTree(paths, infos, tags, scopes, at, time);
      callStack := callStack[..|callStack| - 1];
      current := scope.previous;
      var tagInfo := if scope.tag in tags then tags[scope.tag] else NO_INFO;
      var recursion := scope.tag in callStack;
      var delta := time - scope.start;
      tags := tags[scope.tag := Taken(tagInfo, delta, !recursion)];
      Book(scope.call, delta, at);
      scopes := scopes[..|scopes| - 1];
    }

    lemma DistinctNodes()
      requires Valid()
      ensures forall i, j :: 0 <= i < j < |nodes| ==> nodes[i] != nodes[j] && paths[i] != paths[j]
    {
    }
  }
}
