/** What the numbers of Core/Profiling.cpp mean: they are compared with the list of scopes that ended in a run, which is
    told from the events alone.
*/
module ProfilingEvents {
  import opened ProfilingTree

  // ---------- The scopes of a run ----------

  /** A scope that ended: the tags of the scopes that were open at its end, its own last, and its two times. */
  datatype Done = Done(path: Path, start: real, stop: real)
  {
    function Time(): real {
      stop - start
    }
  }

  /** The scopes that are open after the events, innermost last. */
  function Opened(events: seq<Event>): seq<Frame> {
    if events == [] then []
    else
      var open := Opened(events[..|events| - 1]);
      match events[|events| - 1]
      case EnterEvent(tag, time) => open + [Frame(tag, time)]
      case LeaveEvent(_) => if open == [] then [] else open[..|open| - 1]
  }

  /** The scopes that ended, in that order. */
  function Ended(events: seq<Event>): seq<Done> {
    if events == [] then []
    else
      var before, e := events[..|events| - 1], events[|events| - 1];
      var open := Opened(before);
      if e.EnterEvent? || open == [] then Ended(before)
      else Ended(before) + [Done(Tags(open), open[|open| - 1].start, e.time)]
  }

  /** The times of the ended scopes with a tag. */
  function TagTimes(ds: seq<Done>, tag: Tag): seq<real> {
    if ds == [] then []
    else
      var d := ds[|ds| - 1];
      TagTimes(ds[..|ds| - 1], tag) + if EndsIn(d.path, tag) then [d.Time()] else []
  }

  /** The same without the scopes that were nested in one with the same tag. */
  function OuterTimes(ds: seq<Done>, tag: Tag): seq<real> {
    if ds == [] then []
    else
      var d := ds[|ds| - 1];
      OuterTimes(ds[..|ds| - 1], tag) + if EndsIn(d.path, tag) && Outermost(d.path) then [d.Time()] else []
  }

  /** The times of the ended scopes that were called along a path. */
  function PathTimes(ds: seq<Done>, p: Path): seq<real> {
    if ds == [] then []
    else
      var d := ds[|ds| - 1];
      PathTimes(ds[..|ds| - 1], p) + if d.path == p then [d.Time()] else []
  }

  // ---------- Numbers of a list of times ----------

  function Sum(times: seq<real>): real {
    if times == [] then 0.0 else Sum(times[..|times| - 1]) + times[|times| - 1]
  }

  /** The largest of the times and of -FLT_MAX. */
  ghost predicate Largest(x: real, times: seq<real>) {
    x >= -FLT_MAX && (forall t :: t in times ==> t <= x) && (x == -FLT_MAX || x in times)
  }

  /** The smallest of the times and of FLT_MAX. */
  ghost predicate Smallest(x: real, times: seq<real>) {
    x <= FLT_MAX && (forall t :: t in times ==> t >= x) && (x == FLT_MAX || x in times)
  }

  /** The numbers of the scopes that took `times`, where those that took `outer` count for the total. */
  ghost predicate Tells(info: Info, times: seq<real>, outer: seq<real>) {
    info.count == |times| && info.total == Sum(outer) && Largest(info.longest, times) && Smallest(info.shortest, times)
  }

  lemma SumOne(times: seq<real>, t: real)
    ensures Sum(times + [t]) == Sum(times) + t
  {
    assert (times + [t])[..|times|] == times;
  }

  lemma TakenTells(info: Info, times: seq<real>, outer: seq<real>, delta: real, counts: bool)
    requires Tells(info, times, outer)
    ensures Tells(Taken(info, delta, counts), times + [delta], if counts then outer + [delta] else outer)
  {
    SumOne(outer, delta);
    LargestOne(info.longest, times, delta);
    SmallestOne(info.shortest, times, delta);
  }

  lemma LargestOne(x: real, times: seq<real>, t: real)
    requires Largest(x, times)
    ensures Largest(if x < t then t else x, times + [t])
  {
    assert t in times + [t];
  }

  lemma SmallestOne(x: real, times: seq<real>, t: real)
    requires Smallest(x, times)
    ensures Smallest(if x > t then t else x, times + [t])
  {
    assert t in times + [t];
  }

  // ---------- One more scope ----------

  lemma TimesOne(ds: seq<Done>, d: Done)
    ensures forall tag :: TagTimes(ds + [d], tag) == TagTimes(ds, tag) + if EndsIn(d.path, tag) then [d.Time()] else []
    ensures forall tag ::
              OuterTimes(ds + [d], tag)
              == OuterTimes(ds, tag) + if EndsIn(d.path, tag) && Outermost(d.path) then [d.Time()] else []
    ensures forall p :: PathTimes(ds + [d], p) == PathTimes(ds, p) + if d.path == p then [d.Time()] else []
  {
    assert (ds + [d])[..|ds|] == ds;
  }

  /** The state tells what ended: every flat entry, every node, and there is a node for every ended scope. */
  ghost predicate FlatTells(flat: map<Tag, Info>, ds: seq<Done>) {
    forall tag :: Tells(FlatInfo(flat, tag), TagTimes(ds, tag), OuterTimes(ds, tag))
  }

  ghost predicate TreeTells(tree: seq<Entry>, ds: seq<Done>) {
    && (forall i :: 0 <= i < |tree| ==> Tells(tree[i].info, PathTimes(ds, tree[i].path), PathTimes(ds, tree[i].path)))
    && (forall d :: d in ds ==> Has(tree, d.path))
  }

  lemma {:induction false} NeverThere(ds: seq<Done>, p: Path)
    requires forall d :: d in ds ==> d.path != p
    ensures PathTimes(ds, p) == []
  {
    if ds != [] { NeverThere(ds[..|ds| - 1], p); }
  }

  lemma EnterTells(st: State, tag: Tag, time: real, ds: seq<Done>)
    requires TreeTells(st.tree, ds)
    ensures TreeTells(Enter(st, tag, time).tree, ds)
  {
    hide Position, Tells;
    var p := Tags(st.stack) + [tag];
    forall q
      ensures Has(Grown(st.tree, p), q) <==> Has(st.tree, q) || q == p
    {
      HasGrown(st.tree, p, q);
    }
    if !Has(st.tree, p) {
      NeverThere(ds, p);
      NothingTold();
    }
  }

  lemma NothingTold()
    ensures Tells(NO_INFO, [], [])
  {
  }

  lemma LeaveTells(st: State, time: real, ds: seq<Done>)
    requires Distinct(st.tree) && st.stack != [] && Has(st.tree, Tags(st.stack))
    requires FlatTells(st.flat, ds) && TreeTells(st.tree, ds)
    ensures var d := Done(Tags(st.stack), st.stack[|st.stack| - 1].start, time);
            FlatTells(Leave(st, time).flat, ds + [d]) && TreeTells(Leave(st, time).tree, ds + [d])
  {
    hide Tells, Taken, TagTimes, OuterTimes, PathTimes;
    var d := Done(Tags(st.stack), st.stack[|st.stack| - 1].start, time);
    TimesOne(ds, d);
    LeaveFlat(st, time, ds, d);
    LeaveNodes(st, time, ds, d);
  }

  lemma LeaveFlat(st: State, time: real, ds: seq<Done>, d: Done)
    requires st.stack != [] && Has(st.tree, Tags(st.stack)) && FlatTells(st.flat, ds)
    requires d == Done(Tags(st.stack), st.stack[|st.stack| - 1].start, time)
    ensures FlatTells(Leave(st, time).flat, ds + [d])
  {
    hide Tells, Taken, TagTimes, OuterTimes, PathTimes, Position;
    TagsPop(st.stack);
    TimesOne(ds, d);
    var f := st.stack[|st.stack| - 1];
    assert Outermost(d.path) <==> f.tag !in Tags(st.stack[..|st.stack| - 1]) by {
      assert d.path[..|d.path| - 1] == Tags(st.stack[..|st.stack| - 1]);
    }
    TakenTells(FlatInfo(st.flat, f.tag), TagTimes(ds, f.tag), OuterTimes(ds, f.tag), d.Time(), Outermost(d.path));
    forall tag
      ensures Tells(FlatInfo(Leave(st, time).flat, tag), TagTimes(ds + [d], tag), OuterTimes(ds + [d], tag))
    {
      if tag != f.tag {
        assert TagTimes(ds, tag) + [] == TagTimes(ds, tag) && OuterTimes(ds, tag) + [] == OuterTimes(ds, tag);
      } else if !Outermost(d.path) {
        assert OuterTimes(ds, tag) + [] == OuterTimes(ds, tag);
      }
    }
  }

  lemma LeaveNodes(st: State, time: real, ds: seq<Done>, d: Done)
    requires Distinct(st.tree) && st.stack != [] && Has(st.tree, Tags(st.stack)) && TreeTells(st.tree, ds)
    requires d == Done(Tags(st.stack), st.stack[|st.stack| - 1].start, time)
    ensures TreeTells(Leave(st, time).tree, ds + [d])
  {
    hide Tells, Taken, PathTimes;
    var st' := Leave(st, time);
    var at := Position(st.tree, Tags(st.stack));
    TimesOne(ds, d);
    HasSame(st.tree, st'.tree);
    TakenTells(st.tree[at].info, PathTimes(ds, d.path), PathTimes(ds, d.path), d.Time(), true);
    forall i | 0 <= i < |st'.tree|
      ensures var times := PathTimes(ds + [d], st'.tree[i].path); Tells(st'.tree[i].info, times, times)
    {
      if i != at {
        assert st.tree[i].path != d.path;
        assert PathTimes(ds, st.tree[i].path) + [] == PathTimes(ds, st.tree[i].path);
      }
    }
    forall e | e in ds + [d]
      ensures Has(st'.tree, e.path)
    {
      assert e in ds || e == d;
    }
  }

  // ---------- Over every run ----------

  lemma {:induction false} RunTells(events: seq<Event>)
    requires Legal(events)
    ensures Opened(events) == Run(events).stack
    ensures FlatTells(Run(events).flat, Ended(events)) && TreeTells(Run(events).tree, Ended(events))
  {
    hide FlatTells, TreeTells;
    if events == [] {
      EmptyTells();
    } else {
      var before, e := events[..|events| - 1], events[|events| - 1];
      LegalPrefix(events);
      RunTells(before);
      RunInv(before);
      var st := Run(before);
      match e {
        case EnterEvent(tag, time) => EnterTells(st, tag, time, Ended(before));
        case LeaveEvent(time) =>
          assert events[..|events| - 1] == before;
          LeaveLinked(st, time);
          LeaveTells(st, time, Ended(before));
      }
    }
  }

  lemma EmptyTells()
    ensures FlatTells(EMPTY.flat, []) && TreeTells(EMPTY.tree, [])
  {
    NothingTold();
  }

  /** After any legal run: the flat count of a tag is the number of ended scopes with the tag, its longest and shortest
      are the largest and smallest of their times, and its total is the time of those that were not nested in one with
      the same tag.
   */
  lemma FlatExactly(events: seq<Event>, tag: Tag)
    requires Legal(events)
    ensures var info, times := FlatInfo(Run(events).flat, tag), TagTimes(Ended(events), tag);
            && info.count == |times| && Largest(info.longest, times) && Smallest(info.shortest, times)
            && info.total == Sum(OuterTimes(Ended(events), tag))
  {
    RunTells(events);
  }

  /** The same for the nodes of the call tree, by their paths; every ended scope has a node. */
  lemma NodeExactly(events: seq<Event>, i: nat)
    requires Legal(events) && i < |Run(events).tree|
    ensures var e := Run(events).tree[i];
            var times := PathTimes(Ended(events), e.path);
            && e.info.count == |times| && e.info.total == Sum(times)
            && Largest(e.info.longest, times) && Smallest(e.info.shortest, times)
    ensures forall d :: d in Ended(events) ==> Has(Run(events).tree, d.path)
  {
    RunTells(events);
  }

  /** A scope with this path ended, or is open. */
  ghost predicate Called(p: Path, ds: seq<Done>, open: seq<Frame>) {
    (exists d :: d in ds && d.path == p) || Active(p, open)
  }

  lemma OpenPush(p: Path, open: seq<Frame>, f: Frame)
    ensures Active(p, open + [f]) <==> Active(p, open) || p == Tags(open) + [f.tag]
  {
    TagsPush(open, f);
    assert Tags(open + [f])[..|open| + 1] == Tags(open + [f]);
  }

  lemma OpenPop(p: Path, open: seq<Frame>)
    requires open != []
    ensures Active(p, open) <==> Active(p, open[..|open| - 1]) || p == Tags(open)
  {
    TagsPop(open);
    assert Tags(open)[..|open|] == Tags(open);
  }

  lemma EndedPath(ds: seq<Done>, d: Done, p: Path)
    ensures (exists e :: e in ds + [d] && e.path == p) <==> (exists e :: e in ds && e.path == p) || d.path == p
  {
    assert d in ds + [d];
  }

  lemma NoneCalled(p: Path)
    ensures !Has(EMPTY.tree, p) && !Called(p, [], [])
  {
  }

  lemma CalledEnter(st: State, tag: Tag, time: real, ds: seq<Done>, p: Path)
    requires Has(st.tree, p) <==> Called(p, ds, st.stack)
    ensures Has(Enter(st, tag, time).tree, p) <==> Called(p, ds, st.stack + [Frame(tag, time)])
  {
    hide Has, Active, Position;
    HasEntered(st, tag, time, p);
    OpenPush(p, st.stack, Frame(tag, time));
  }

  lemma HasEntered(st: State, tag: Tag, time: real, p: Path)
    ensures Has(Enter(st, tag, time).tree, p) <==> Has(st.tree, p) || p == Tags(st.stack) + [tag]
  {
    hide Position;
    HasGrown(st.tree, Tags(st.stack) + [tag], p);
  }

  lemma CalledLeave(st: State, time: real, ds: seq<Done>, p: Path)
    requires Linked(st) && st.stack != [] && (Has(st.tree, p) <==> Called(p, ds, st.stack))
    ensures Has(st.tree, Tags(st.stack))
    ensures var d := Done(Tags(st.stack), st.stack[|st.stack| - 1].start, time);
            Has(Leave(st, time).tree, p) <==> Called(p, ds + [d], st.stack[..|st.stack| - 1])
  {
    hide Active, Linked, Taken, Position;
    LeaveLinked(st, time);
    HasSame(st.tree, Leave(st, time).tree);
    OpenPop(p, st.stack);
    EndedPath(ds, Done(Tags(st.stack), st.stack[|st.stack| - 1].start, time), p);
  }

  /** The call tree has a node exactly for every path along which a scope was entered. */
  lemma {:induction false} NodesAreCalled(events: seq<Event>, p: Path)
    requires Legal(events)
    ensures Has(Run(events).tree, p) <==> Called(p, Ended(events), Opened(events))
  {
    hide Called, Linked, FlatTells, TreeTells, Summed, Distinct, Position;
    if events == [] {
      NoneCalled(p);
    } else {
      var before, e := events[..|events| - 1], events[|events| - 1];
      LegalPrefix(events);
      NodesAreCalled(before, p);
      RunTells(before);
      RunInv(before);
      match e {
        case EnterEvent(tag, time) => CalledEnter(Run(before), tag, time, Ended(before), p);
        case LeaveEvent(time) =>
          assert events[..|events| - 1] == before;
          CalledLeave(Run(before), time, Ended(before), p);
      }
    }
  }

  /** Every leave event ends one scope. */
  lemma {:induction false} AllEnded(events: seq<Event>)
    requires Legal(events)
    ensures |Opened(events)| == Depth(events) && |events| == 2 * |Ended(events)| + |Opened(events)|
  {
    if events != [] {
      LegalPrefix(events);
      AllEnded(events[..|events| - 1]);
      assert events[|events| - 1].LeaveEvent? ==> Depth(events[..|events| - 1]) > 0;
    }
  }
}
