/** Instances and the index cache of core/registry/struct.go and core/registry/cache_index.go. */
module Registry {
  import opened Base

  datatype Instance = Instance(id: string, metadata: map<string, string>, status: string)

  function VersionOf(i: Instance): (v: string) {
    At(i.metadata, "version")
  }

  predicate Has(i: Instance, tags: map<string, string>) {
    forall k :: k in tags ==> k in i.metadata && i.metadata[k] == tags[k]
  }

  /** A Go slice of instances: a nil slice is told apart from an empty one. */
  datatype Slice = Nil | Of(list: seq<Instance>)

  function Items(s: Slice): (items: seq<Instance>) {
    if s.Nil? then [] else s.list
  }

  ghost function Ids(items: seq<Instance>): (ids: set<string>) {
    set k | 0 <= k < |items| :: items[k].id
  }

  /** The instances that have the tags, in their order. */
  function Filter(items: seq<Instance>, tags: map<string, string>): (r: seq<Instance>) {
    if items == [] then []
    else
      var last := items[|items| - 1];
      Filter(items[..|items| - 1], tags) + if Has(last, tags) then [last] else []
  }

  // ---------- versions ----------

  /**
    How go-version orders version strings: None does not parse, and 0.0.0 is at 0. Reals are enough for any such order,
    as there are only countably many strings.
   */
  type Ranking = string -> Option<real>

  /** The latest version Set sees: the version string and the rank to beat. */
  datatype Latest = Latest(version: Option<string>, rank: real)

  function Best(rank: Ranking, items: seq<Instance>): (b: Latest) {
    if items == [] then Latest(None, 0.0)
    else
      var b, v := Best(rank, items[..|items| - 1]), VersionOf(items[|items| - 1]);
      if rank(v).Some? && b.rank < rank(v).value then Latest(Some(v), rank(v).value) else b
  }

  function RankAt(rank: Ranking, items: seq<Instance>, k: nat): (r: Option<real>)
    requires k < |items|
  {
    rank(VersionOf(items[k]))
  }

  /** m is the first instance of maximal version, and that version is above 0.0.0. */
  ghost predicate FirstMaximum(rank: Ranking, items: seq<Instance>, m: nat) {
    && m < |items|
    && RankAt(rank, items, m).Some?
    && var top := RankAt(rank, items, m).value;
       && top > 0.0
       && AllWithin(rank, items, top)
       && forall k: nat :: k < m && RankAt(rank, items, k).Some? ==> RankAt(rank, items, k).value < top
  }

  ghost predicate AllWithin(rank: Ranking, items: seq<Instance>, top: real) {
    forall k: nat :: k < |items| && RankAt(rank, items, k).Some? ==> RankAt(rank, items, k).value <= top
  }

  ghost predicate Ranked(rank: Ranking, items: seq<Instance>) {
    exists k: nat :: k < |items| && RankAt(rank, items, k).Some? && RankAt(rank, items, k).value > 0.0
  }

  /** b.rank bounds all versions; b names the version that reaches it, unless none is above 0.0.0. */
  ghost predicate BestOf(rank: Ranking, items: seq<Instance>, b: Latest) {
    && AllWithin(rank, items, b.rank)
    && if b.version.None? then b.rank == 0.0
       else exists m: nat :: FirstMaximum(rank, items, m) && b == LatestAt(rank, items, m)
  }

  ghost function LatestAt(rank: Ranking, items: seq<Instance>, m: nat): (b: Latest)
    requires FirstMaximum(rank, items, m)
  {
    Latest(Some(VersionOf(items[m])), RankAt(rank, items, m).value)
  }

  lemma {:induction false} BestIsBest(rank: Ranking, items: seq<Instance>)
    ensures BestOf(rank, items, Best(rank, items))
  {
    if items != [] {
      var front, v := items[..|items| - 1], VersionOf(items[|items| - 1]);
      BestIsBest(rank, front);
      var b := Best(rank, front);
      if rank(v).Some? && b.rank < rank(v).value {
        BestReplaced(rank, items, b);
      } else {
        BestKept(rank, items, b);
      }
    }
  }

  lemma BestReplaced(rank: Ranking, items: seq<Instance>, b: Latest)
    requires items != [] && BestOf(rank, items[..|items| - 1], b)
    requires var v := VersionOf(items[|items| - 1]); rank(v).Some? && b.rank < rank(v).value
    ensures var v := VersionOf(items[|items| - 1]); BestOf(rank, items, Latest(Some(v), rank(v).value))
  {
    var front, m := items[..|items| - 1], |items| - 1;
    assert forall k: nat :: k < |front| ==> RankAt(rank, front, k) == RankAt(rank, items, k);
    assert b.rank >= 0.0;
    assert FirstMaximum(rank, items, m);
    assert Latest(Some(VersionOf(items[m])), RankAt(rank, items, m).value) == LatestAt(rank, items, m);
  }

  lemma BestKept(rank: Ranking, items: seq<Instance>, b: Latest)
    requires items != [] && BestOf(rank, items[..|items| - 1], b)
    requires var v := VersionOf(items[|items| - 1]); rank(v).Some? ==> rank(v).value <= b.rank
    ensures BestOf(rank, items, b)
  {
    var front := items[..|items| - 1];
    assert forall k: nat :: k < |front| ==> RankAt(rank, front, k) == RankAt(rank, items, k);
    if b.version.Some? {
      var m: nat :| FirstMaximum(rank, front, m) && b == LatestAt(rank, front, m);
      assert FirstMaximum(rank, items, m) && b == LatestAt(rank, items, m);
    }
  }

  /** Set's loop finds a version iff some version is above 0.0.0, and then that of the first maximum. */
  lemma BestIsFirstMaximum(rank: Ranking, items: seq<Instance>)
    ensures Best(rank, items).version.Some? <==> Ranked(rank, items)
    ensures Ranked(rank, items) ==>
              exists m: nat :: FirstMaximum(rank, items, m) && Best(rank, items) == LatestAt(rank, items, m)
  {
    hide Best;
    BestIsBest(rank, items);
  }
}
