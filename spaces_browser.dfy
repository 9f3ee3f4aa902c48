/** The two pieces of logic of the bucket browser service that do not talk to
    S3: the diff of two bucket snapshots that feeds the changelog, and the
    breadcrumb trail shown above a browsed prefix. */
module SpacesBrowser {
  import opened Wrappers

  // ---------------------------------------------------------------------------
  // diff_snapshots
  // ---------------------------------------------------------------------------

  /** The part of an S3 object's listing entry that the diff compares. */
  datatype ObjectMeta = ObjectMeta(etag: string, size: int)

  /** A listing of the bucket: object key to its metadata. */
  type Snapshot = map<string, ObjectMeta>

  datatype Action = Added | Deleted | Modified

  /** One changelog record; `time` is the caller's timestamp. */
  datatype ChangeRecord = ChangeRecord(action: Action, key: string, time: string)

  /** The order in which the three loops emit their records. */
  function Rank(a: Action): nat {
    match a
    case Added => 0
    case Deleted => 1
    case Modified => 2
  }

  /** The ETag or the Size of an object differs between two listings. */
  predicate Differs(before: ObjectMeta, after: ObjectMeta) {
    before.etag != after.etag || before.size != after.size
  }

  /** What happened to `key` between the two snapshots, if anything. */
  function Classify(previous: Snapshot, snapshot: Snapshot, key: string): Option<Action> {
    if key in snapshot && key !in previous then Some(Added)
    else if key in previous && key !in snapshot then Some(Deleted)
    else if key in previous && key in snapshot && Differs(previous[key], snapshot[key]) then Some(Modified)
    else None
  }

  function AddedKeys(previous: Snapshot, snapshot: Snapshot): set<string> {
    snapshot.Keys - previous.Keys
  }

  function DeletedKeys(previous: Snapshot, snapshot: Snapshot): set<string> {
    previous.Keys - snapshot.Keys
  }

  function ModifiedKeys(previous: Snapshot, snapshot: Snapshot): set<string> {
    set k | k in previous.Keys * snapshot.Keys && Differs(previous[k], snapshot[k])
  }

  /** The keys the records speak about, in record order. */
  function KeysOf(records: seq<ChangeRecord>): seq<string> {
    seq(|records|, i requires 0 <= i < |records| => records[i].key)
  }

  /** One `action` record per key of `keys`, in that order. */
  function Records(keys: seq<string>, action: Action, now: string): seq<ChangeRecord> {
    seq(|keys|, i requires 0 <= i < |keys| => ChangeRecord(action, keys[i], now))
  }

  /** One loop over a set of keys: appends one `action` record per key, in
      the order the set iteration chooses (`order`). */
  method RecordAll(changes: seq<ChangeRecord>, keys: set<string>, action: Action, now: string)
    returns (out: seq<ChangeRecord>, ghost order: seq<string>)
    ensures |out| == |changes| + |keys| && out[..|changes|] == changes
    ensures forall i :: |changes| <= i < |out| ==>
              out[i].action == action && out[i].time == now && out[i].key in keys
    ensures out == changes + Records(order, action, now)
    ensures Distinct(order) && |order| == |keys|
    ensures forall k :: k in order <==> k in keys
  {
    out, order := changes, [];
    var rest := keys;
    while rest != {}
      invariant rest <= keys
      invariant out == changes + Records(order, action, now)
      invariant Distinct(order)
      invariant forall k :: k in order <==> k in keys && k !in rest
      decreases |rest|
    {
      var key :| key in rest;
      assert Records(order + [key], action, now) == Records(order, action, now) + [ChangeRecord(action, key, now)];
      out, order := out + [ChangeRecord(action, key, now)], order + [key];
      rest := rest - {key};
    }
    DistinctCard(order, keys);
  }

  /** The third loop: of the keys in both snapshots, appends a `Modified`
      record for each one whose ETag or Size differs. */
  method RecordModified(changes: seq<ChangeRecord>, previous: Snapshot, snapshot: Snapshot, now: string)
    returns (out: seq<ChangeRecord>, ghost order: seq<string>)
    ensures |out| == |changes| + |ModifiedKeys(previous, snapshot)| && out[..|changes|] == changes
    ensures forall i :: |changes| <= i < |out| ==>
              out[i].action == Modified && out[i].time == now && out[i].key in ModifiedKeys(previous, snapshot)
    ensures out == changes + Records(order, Modified, now)
    ensures Distinct(order) && |order| == |ModifiedKeys(previous, snapshot)|
    ensures forall k :: k in order <==> k in ModifiedKeys(previous, snapshot)
  {
    var possibleModified := previous.Keys * snapshot.Keys;
    out, order := changes, [];
    var rest := possibleModified;
    while rest != {}
      invariant rest <= possibleModified
      invariant out == changes + Records(order, Modified, now)
      invariant Distinct(order)
      invariant forall k :: k in order <==> k in ModifiedKeys(previous, snapshot) && k !in rest
      decreases |rest|
    {
      var key :| key in rest;
      if Differs(previous[key], snapshot[key]) {
        assert Records(order + [key], Modified, now) == Records(order, Modified, now) + [ChangeRecord(Modified, key, now)];
        out, order := out + [ChangeRecord(Modified, key, now)], order + [key];
      }
      rest := rest - {key};
    }
    DistinctCard(order, ModifiedKeys(previous, snapshot));
  }

  /** diff_snapshots: one record per key that was added, deleted, or kept
      with a different ETag or Size, and none for any other key; added
      records first, then deleted, then modified. Every record carries the
      timestamp `now`. */
  method DiffSnapshots(previous: Snapshot, snapshot: Snapshot, now: string)
    returns (changes: seq<ChangeRecord>)
    ensures forall i :: 0 <= i < |changes| ==>
              changes[i].time == now && Classify(previous, snapshot, changes[i].key) == Some(changes[i].action)
    ensures forall k :: k in KeysOf(changes) <==> Classify(previous, snapshot, k).Some?
    ensures Distinct(KeysOf(changes))
    ensures forall i, j :: 0 <= i < j < |changes| ==> Rank(changes[i].action) <= Rank(changes[j].action)
    ensures |changes| == |AddedKeys(previous, snapshot)| + |DeletedKeys(previous, snapshot)|
                       + |ModifiedKeys(previous, snapshot)|
    ensures previous == snapshot ==> changes == []
  {
    changes := [];
    var oldKeys, newKeys := previous.Keys, snapshot.Keys;
    var added := newKeys - oldKeys;
    var deleted := oldKeys - newKeys;
    ghost var a, d, m;
    changes, a := RecordAll(changes, added, Added, now);
    changes, d := RecordAll(changes, deleted, Deleted, now);
    changes, m := RecordModified(changes, previous, snapshot, now);
    DiffLayout(previous, snapshot, now, a, d, m);
    if previous == snapshot {
      assert ModifiedKeys(previous, snapshot) == {};
    }
  }

  /** The three runs of records, put together, classify every changed key
      exactly once and in rank order. */
  lemma DiffLayout(previous: Snapshot, snapshot: Snapshot, now: string, a: seq<string>, d: seq<string>, m: seq<string>)
    requires Distinct(a) && forall k :: k in a <==> k in AddedKeys(previous, snapshot)
    requires Distinct(d) && forall k :: k in d <==> k in DeletedKeys(previous, snapshot)
    requires Distinct(m) && forall k :: k in m <==> k in ModifiedKeys(previous, snapshot)
    ensures var changes := [] + Records(a, Added, now) + Records(d, Deleted, now) + Records(m, Modified, now);
      && (forall i :: 0 <= i < |changes| ==>
            changes[i].time == now && Classify(previous, snapshot, changes[i].key) == Some(changes[i].action))
      && (forall k :: k in KeysOf(changes) <==> Classify(previous, snapshot, k).Some?)
      && Distinct(KeysOf(changes))
      && (forall i, j :: 0 <= i < j < |changes| ==> Rank(changes[i].action) <= Rank(changes[j].action))
  {
    var changes := [] + Records(a, Added, now) + Records(d, Deleted, now) + Records(m, Modified, now);
    var keys := a + d + m;
    forall i | 0 <= i < |changes|
      ensures changes[i].time == now && changes[i].key == keys[i]
      ensures changes[i].action == (if i < |a| then Added else if i < |a| + |d| then Deleted else Modified)
      ensures Classify(previous, snapshot, changes[i].key) == Some(changes[i].action)
    {
      if i < |a| {
        assert keys[i] == a[i] && a[i] in a;
      } else if i < |a| + |d| {
        assert keys[i] == d[i - |a|] && d[i - |a|] in d;
      } else {
        assert keys[i] == m[i - |a| - |d|] && m[i - |a| - |d|] in m;
      }
    }
    assert KeysOf(changes) == keys;
    forall i, j | 0 <= i < j < |keys|
      ensures keys[i] != keys[j]
    {
      assert keys[i] in keys && keys[j] in keys;
    }
  }

  /** Swapping the snapshots swaps added and deleted and keeps modified. */
  lemma ClassifySwap(previous: Snapshot, snapshot: Snapshot, key: string)
    ensures Classify(previous, snapshot, key) == Some(Added) <==> Classify(snapshot, previous, key) == Some(Deleted)
    ensures Classify(previous, snapshot, key) == Some(Modified) <==> Classify(snapshot, previous, key) == Some(Modified)
    ensures Classify(previous, snapshot, key).None? <==> Classify(snapshot, previous, key).None?
  {
  }

  /** The keys for which the diff has something to say. */
  function ChangedKeys(previous: Snapshot, snapshot: Snapshot): set<string> {
    set k | k in previous.Keys + snapshot.Keys && Classify(previous, snapshot, k).Some?
  }

  /** The changed keys are exactly the added, deleted and modified ones. */
  lemma ChangedKeysSplit(previous: Snapshot, snapshot: Snapshot)
    ensures ChangedKeys(previous, snapshot)
         == AddedKeys(previous, snapshot) + DeletedKeys(previous, snapshot) + ModifiedKeys(previous, snapshot)
  {
  }

  /** The record count is the number of changed keys. */
  lemma ChangedKeysCount(previous: Snapshot, snapshot: Snapshot)
    ensures |AddedKeys(previous, snapshot)| + |DeletedKeys(previous, snapshot)| + |ModifiedKeys(previous, snapshot)|
         == |ChangedKeys(previous, snapshot)|
  {
    var a, d, m := AddedKeys(previous, snapshot), DeletedKeys(previous, snapshot), ModifiedKeys(previous, snapshot);
    ChangedKeysSplit(previous, snapshot);
    assert a * d == {};
    assert (a + d) * m == {};
  }

  /** Nothing changes between a snapshot and itself. */
  lemma NoChangesAgainstItself(snapshot: Snapshot)
    ensures ChangedKeys(snapshot, snapshot) == {}
  {
    forall k | k in snapshot
      ensures Classify(snapshot, snapshot, k).None?
    {
    }
  }

  // ---------------------------------------------------------------------------
  // build_breadcrumbs
  // ---------------------------------------------------------------------------

  /** A breadcrumb: its label and the link it leads to, if any. */
  datatype Crumb = Crumb(name: string, url: Option<string>)

  const BROWSE: string := "/browse/"
  const HOME: Crumb := Crumb("Home", Some(BROWSE))
  const ELLIPSIS: string := "\U{2026}"
  /** Deeper paths than this are collapsed. */
  const MAX_DEPTH: nat := 5

  predicate EndsWithSlash(s: string) {
    |s| > 0 && s[|s| - 1] == '/'
  }

  /** `s` without its leading slashes. */
  function TrimLeft(s: string): (r: string)
    ensures |r| <= |s| && r == s[|s| - |r|..]
    ensures forall i :: 0 <= i < |s| - |r| ==> s[i] == '/'
    ensures r == [] || r[0] != '/'
  {
    if s != [] && s[0] == '/' then TrimLeft(s[1..]) else s
  }

  /** `s` without its trailing slashes. */
  function TrimRight(s: string): (r: string)
    ensures |r| <= |s| && r == s[..|r|]
    ensures forall i :: |r| <= i < |s| ==> s[i] == '/'
    ensures r == [] || r[|r| - 1] != '/'
  {
    if s != [] && s[|s| - 1] == '/' then TrimRight(s[..|s| - 1]) else s
  }

  /** Python's `s.strip("/")`. */
  function StripSlashes(s: string): (r: string)
    ensures r == [] || (r[0] != '/' && r[|r| - 1] != '/')
  {
    TrimRight(TrimLeft(s))
  }

  /** Python's `s.split("/")`: the pieces between slashes, `[""]` for "". */
  function Split(s: string): (parts: seq<string>)
    ensures |parts| >= 1
    ensures forall i :: 0 <= i < |parts| ==> '/' !in parts[i]
  {
    if s == [] then [""]
    else
      var init, c := Split(s[..|s| - 1]), s[|s| - 1];
      if c == '/' then init + [""]
      else init[..|init| - 1] + [init[|init| - 1] + [c]]
  }

  /** Python's `"/".join(parts)`. */
  function Join(parts: seq<string>): (joined: string)
    // two or more parts always leave a separator, so the result is non-empty
    ensures |parts| >= 2 ==> '/' in joined
  {
    if |parts| == 0 then ""
    else if |parts| == 1 then parts[0]
    else Join(parts[..|parts| - 1]) + "/" + parts[|parts| - 1]
  }

  /** Joining after an empty last part adds a trailing separator. */
  lemma JoinAppendEmpty(init: seq<string>)
    requires |init| >= 1
    ensures Join(init + [""]) == Join(init) + "/"
  {
    assert (init + [""])[..|init|] == init;
  }

  /** Joining after extending the last part by `c` extends the join by `c`. */
  lemma JoinExtendLast(init: seq<string>, c: char)
    requires |init| >= 1
    ensures Join(init[..|init| - 1] + [init[|init| - 1] + [c]]) == Join(init) + [c]
  {
    var last := init[|init| - 1];
    var parts := init[..|init| - 1] + [last + [c]];
    if |init| > 1 {
      assert parts[..|parts| - 1] == init[..|init| - 1];
      assert Join(init) == Join(init[..|init| - 1]) + "/" + last;
    } else {
      assert parts == [last + [c]];
    }
  }

  /** Splitting then joining gives the string back. */
  lemma {:induction false} JoinSplit(s: string)
    ensures Join(Split(s)) == s
  {
    if s != [] {
      var s', c := s[..|s| - 1], s[|s| - 1];
      var init := Split(s');
      JoinSplit(s');
      assert s == s' + [c];
      if c == '/' {
        assert Split(s) == init + [""];
        JoinAppendEmpty(init);
      } else {
        assert Split(s) == init[..|init| - 1] + [init[|init| - 1] + [c]];
        JoinExtendLast(init, c);
      }
    }
  }

  /** Joining slash-free pieces then splitting gives the pieces back. */
  lemma {:induction false} SplitJoin(parts: seq<string>)
    requires |parts| >= 1 && forall i :: 0 <= i < |parts| ==> '/' !in parts[i]
    ensures Split(Join(parts)) == parts
  {
    if |parts| == 1 {
      SplitWithoutSlash(parts[0]);
    } else {
      var init := parts[..|parts| - 1];
      SplitJoin(init);
      SplitAfterSlash(Join(init), parts[|parts| - 1]);
      assert parts == init + [parts[|parts| - 1]];
    }
  }

  lemma {:induction false} SplitWithoutSlash(s: string)
    requires '/' !in s
    ensures Split(s) == [s]
  {
    if s != [] {
      SplitWithoutSlash(s[..|s| - 1]);
      assert s == s[..|s| - 1] + [s[|s| - 1]];
    }
  }

  lemma {:induction false} SplitAfterSlash(x: string, b: string)
    requires '/' !in b
    ensures Split(x + "/" + b) == Split(x) + [b]
  {
    if b == [] {
      assert x + "/" + b == x + "/";
      assert (x + "/")[..|x|] == x;
    } else {
      var b' := b[..|b| - 1];
      SplitAfterSlash(x, b');
      assert (x + "/" + b)[..|x + "/" + b| - 1] == x + "/" + b';
      assert b == b' + [b[|b| - 1]];
    }
  }

  /** Each part followed by a slash, concatenated: the path the loops build. */
  function PathPrefix(parts: seq<string>): string {
    if parts == [] then "" else PathPrefix(parts[..|parts| - 1]) + parts[|parts| - 1] + "/"
  }

  /** The accumulated path is the joined path plus a trailing slash. */
  lemma {:induction false} PathPrefixIsJoin(parts: seq<string>)
    requires parts != []
    ensures PathPrefix(parts) == Join(parts) + "/"
  {
    if |parts| > 1 {
      var init := parts[..|parts| - 1];
      PathPrefixIsJoin(init);
      assert init[..|init| - 1] == parts[..|parts| - 2];
    }
  }

  /** The path parts of a browsed prefix. */
  function Parts(prefix: string): seq<string> {
    Split(StripSlashes(prefix))
  }

  /** The crumb of part `i`, linking to the path up to and including it. */
  function Link(parts: seq<string>, i: nat): Crumb
    requires i < |parts|
  {
    Crumb(parts[i], Some(BROWSE + PathPrefix(parts[..i + 1])))
  }

  /** The crumbs of parts `from` up to `to`. */
  function Links(parts: seq<string>, from: nat, to: nat): seq<Crumb>
    requires from <= to <= |parts|
  {
    seq(to - from, j requires 0 <= j < to - from => Link(parts, from + j))
  }

  /** One `for part in ...` loop of build_breadcrumbs over the parts `from`
      up to `to`: extends the accumulated path by each part and a slash and
      appends a crumb linking to it. */
  method AppendLinks(crumbs: seq<Crumb>, parts: seq<string>, from: nat, to: nat, pathAccum: string)
    returns (out: seq<Crumb>, accum: string)
    requires from <= to <= |parts| && pathAccum == PathPrefix(parts[..from])
    ensures out == crumbs + Links(parts, from, to)
    ensures accum == PathPrefix(parts[..to])
  {
    out, accum := crumbs, pathAccum;
    for i := from to to
      invariant accum == PathPrefix(parts[..i])
      invariant out == crumbs + Links(parts, from, i)
    {
      assert parts[..i + 1][..i] == parts[..i];
      accum := accum + parts[i] + "/";
      assert Links(parts, from, i + 1) == Links(parts, from, i) + [Link(parts, i)];
      out := out + [Crumb(parts[i], Some(BROWSE + accum))];
    }
  }

  /** build_breadcrumbs: Home, then one crumb per path part, except that a
      path deeper than five parts shows its first two parts, an ellipsis
      without a link and its last two parts. Every other crumb is the `Link`
      of its part, so it ends in a slash (LinkEndsWithSlash) and the last one
      is the whole path (LastLinkIsWholePath). */
  method BuildBreadcrumbs(prefix: string) returns (crumbs: seq<Crumb>)
    ensures |crumbs| >= 1 && crumbs[0] == HOME
    ensures prefix == "" ==> crumbs == [HOME]
    ensures prefix != "" && |Parts(prefix)| <= MAX_DEPTH ==>
              crumbs == [HOME] + Links(Parts(prefix), 0, |Parts(prefix)|)
    ensures prefix != "" && |Parts(prefix)| > MAX_DEPTH ==>
              var parts, n := Parts(prefix), |Parts(prefix)|;
              crumbs == [HOME, Link(parts, 0), Link(parts, 1), Crumb(ELLIPSIS, None),
                         Link(parts, n - 2), Link(parts, n - 1)]
  {
    crumbs := [HOME];
    if prefix == "" {
      return;
    }
    var parts := Split(StripSlashes(prefix));
    var n := |parts|;
    var pathAccum := "";
    if n <= MAX_DEPTH {
      crumbs, pathAccum := AppendLinks(crumbs, parts, 0, n, pathAccum);
    } else {
      crumbs, pathAccum := AppendLinks(crumbs, parts, 0, 2, pathAccum);
      if n > 4 {
        crumbs := crumbs + [Crumb(ELLIPSIS, None)];
      }
      assert parts[..2] + parts[2..n - 2] == parts[..n - 2];
      pathAccum := Join(parts[..2] + parts[2..n - 2]);
      if pathAccum != "" {
        pathAccum := pathAccum + "/";
      }
      PathPrefixIsJoin(parts[..n - 2]);
      crumbs, pathAccum := AppendLinks(crumbs, parts, n - 2, n, pathAccum);
    }
  }

  /** Every link of a part ends in a slash. */
  lemma LinkEndsWithSlash(parts: seq<string>, i: nat)
    requires i < |parts|
    ensures Link(parts, i).url.Some? && EndsWithSlash(Link(parts, i).url.value)
  {
  }

  /** The link of the last part is the whole path, joined by slashes, with a
      trailing slash. */
  lemma LastLinkIsWholePath(parts: seq<string>)
    requires |parts| >= 1
    ensures Link(parts, |parts| - 1).url == Some(BROWSE + Join(parts) + "/")
  {
    assert parts[..|parts|] == parts;
    PathPrefixIsJoin(parts);
    assert BROWSE + (Join(parts) + "/") == BROWSE + Join(parts) + "/";
  }
}
