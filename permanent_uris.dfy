/**
 * Permanent URIs for the files of one repository prefix (generate_permanent_uris.py):
 * nanoid generation, the get-or-create on the id -> S3 key map, the listing
 * filter that skips directory markers and .DS_Store files, and the loop that
 * registers every listed file.
 */
module PermanentUris {
  import opened Wrappers

  type Id = string
  type Key = string

  // ---------------------------------------------------------------------------
  // The nanoid alphabet: string.ascii_letters + string.digits + "-_"
  // ---------------------------------------------------------------------------

  const NANOID_LENGTH: nat := 21
  const ALPHABET_SIZE: nat := 64

  /** `n` consecutive code points starting at `lo`, the shape of Python's
      string.ascii_lowercase, string.ascii_uppercase and string.digits. */
  function CharRun(lo: char, n: nat): string
    requires lo as int + n <= 0xD800
  {
    seq(n, i requires 0 <= i < n => (lo as int + i) as char)
  }

  const ASCII_LOWERCASE: string := CharRun('a', 26)
  const ASCII_UPPERCASE: string := CharRun('A', 26)
  const DIGITS: string := CharRun('0', 10)
  const ALPHABET: string := ASCII_LOWERCASE + ASCII_UPPERCASE + DIGITS + "-_"

  /** The URL- and filename-safe symbols of base64url (section 5 of RFC 4648). */
  predicate IsUrlSafe(c: char) {
    ('A' <= c <= 'Z') || ('a' <= c <= 'z') || ('0' <= c <= '9') || c == '-' || c == '_'
  }

  /** The code point of the `i`-th symbol of ALPHABET. */
  function SymbolCode(i: nat): int
    requires i < ALPHABET_SIZE
  {
    if i < 26 then 'a' as int + i
    else if i < 52 then 'A' as int + (i - 26)
    else if i < 62 then '0' as int + (i - 52)
    else if i == 62 then '-' as int
    else '_' as int
  }

  lemma AlphabetCodes()
    ensures |ALPHABET| == ALPHABET_SIZE
    ensures forall i :: 0 <= i < ALPHABET_SIZE ==> ALPHABET[i] as int == SymbolCode(i)
  {
  }

  /** ALPHABET is exactly the base64url symbol set, each symbol once. */
  lemma AlphabetIsUrlSafe()
    ensures |ALPHABET| == ALPHABET_SIZE
    ensures forall c :: c in ALPHABET <==> IsUrlSafe(c)
    ensures forall i, j :: 0 <= i < j < ALPHABET_SIZE ==> ALPHABET[i] != ALPHABET[j]
  {
    AlphabetCodes();
    forall c | IsUrlSafe(c)
      ensures c in ALPHABET
    {
      var i :=
        if 'a' <= c <= 'z' then c as int - 'a' as int
        else if 'A' <= c <= 'Z' then c as int - 'A' as int + 26
        else if '0' <= c <= '9' then c as int - '0' as int + 52
        else if c == '-' then 62
        else 63;
      assert ALPHABET[i] as int == c as int;
    }
  }

  // ---------------------------------------------------------------------------
  // generate_nanoid over an injected random source
  // ---------------------------------------------------------------------------

  /** Index into ALPHABET chosen by one call of `secrets.choice`. */
  type Draw = d: nat | d < 64

  /** The string `generate_nanoid` builds from a sequence of draws. */
  function Spell(draws: seq<Draw>): Id
  {
    seq(|draws|, i requires 0 <= i < |draws| => ALPHABET[draws[i]])
  }

  /** The `n` draws of `draw` from position `start` on. */
  function Window(draw: nat -> Draw, start: nat, n: nat): seq<Draw>
  {
    seq(n, i requires 0 <= i < n => draw(start + i))
  }

  /** The `k`-th default-length nanoid generated from position `start` on. */
  function NthId(draw: nat -> Draw, start: nat, k: nat): Id
  {
    Spell(Window(draw, start + NANOID_LENGTH * k, NANOID_LENGTH))
  }

  /** A well-formed default nanoid. */
  predicate IsNanoid(id: Id) {
    |id| == NANOID_LENGTH && forall i :: 0 <= i < |id| ==> IsUrlSafe(id[i])
  }

  /** Distinct draw sequences spell distinct ids: every id arises from
      exactly one sequence of choices. */
  lemma SpellInjective(a: seq<Draw>, b: seq<Draw>)
    requires |a| == |b| && Spell(a) == Spell(b)
    ensures a == b
  {
    AlphabetIsUrlSafe();
    forall i | 0 <= i < |a|
      ensures a[i] == b[i]
    {
      assert Spell(a)[i] == Spell(b)[i];
    }
  }

  ghost predicate FreshAhead(draw: nat -> Draw, known: set<Id>, start: nat) {
    exists k: nat :: NthId(draw, start, k) !in known
  }

  /** The premise under which every retry loop of a run of get-or-create
      calls ends while at most `bound` ids are taken: from any position, the
      nanoids the source generates include one outside any set of at most
      `bound` ids. There are only 64^21 nanoids, so no source meets this for
      every bound; BlockDrawUnconfined exhibits a source that meets it for 63. */
  ghost predicate Unconfined(draw: nat -> Draw, bound: nat) {
    forall known: set<Id>, start: nat | |known| <= bound :: FreshAhead(draw, known, start)
  }

  /** With nothing taken, every source has a fresh id ahead. */
  lemma UnconfinedAtZero(draw: nat -> Draw)
    ensures Unconfined(draw, 0)
  {
    forall known: set<Id>, start: nat | |known| <= 0
      ensures FreshAhead(draw, known, start)
    {
      assert NthId(draw, start, 0) !in known;
    }
  }

  /** A premise for a bound covers every smaller bound. */
  lemma UnconfinedBelow(draw: nat -> Draw, bound: nat, smaller: nat)
    requires Unconfined(draw, bound) && smaller <= bound
    ensures Unconfined(draw, smaller)
  {
  }

  /** The premise at work: a map with at most `bound` ids has a fresh id ahead. */
  lemma UnconfinedFreshAhead(draw: nat -> Draw, bound: nat, entries: map<Id, Key>, start: nat)
    requires Unconfined(draw, bound) && |entries| <= bound
    ensures FreshAhead(draw, entries.Keys, start)
  {
  }

  /** A source that makes the same choice for a whole block of
      NANOID_LENGTH draws and moves one symbol on per block. */
  function BlockDraw(n: nat): Draw {
    (n / NANOID_LENGTH) % ALPHABET_SIZE
  }

  /** The `k`-th id that BlockDraw generates from `start` on begins with the
      symbol of block `start / NANOID_LENGTH + k`. */
  lemma BlockIdFirstSymbol(start: nat, k: nat)
    ensures |NthId(BlockDraw, start, k)| == NANOID_LENGTH
    ensures NthId(BlockDraw, start, k)[0] == ALPHABET[(start / NANOID_LENGTH + k) % ALPHABET_SIZE]
  {
    AlphabetCodes();
    var q, r := start / NANOID_LENGTH, start % NANOID_LENGTH;
    assert start + NANOID_LENGTH * k == NANOID_LENGTH * (q + k) + r;
    assert (start + NANOID_LENGTH * k) / NANOID_LENGTH == q + k;
    var w := Window(BlockDraw, start + NANOID_LENGTH * k, NANOID_LENGTH);
    assert w[0] == BlockDraw(start + NANOID_LENGTH * k);
    assert NthId(BlockDraw, start, k)[0] == ALPHABET[w[0]];
  }

  /** Any 64 consecutive ids of BlockDraw are pairwise different. */
  lemma BlockIdsDistinct(start: nat, j: nat, k: nat)
    requires j < k < ALPHABET_SIZE
    ensures NthId(BlockDraw, start, j) != NthId(BlockDraw, start, k)
  {
    AlphabetIsUrlSafe();
    BlockIdFirstSymbol(start, j);
    BlockIdFirstSymbol(start, k);
    var q := start / NANOID_LENGTH;
    var a, b := (q + j) % ALPHABET_SIZE, (q + k) % ALPHABET_SIZE;
    assert q + j == ALPHABET_SIZE * ((q + j) / ALPHABET_SIZE) + a;
    assert q + k == ALPHABET_SIZE * ((q + k) / ALPHABET_SIZE) + b;
    assert a != b;
    if a < b {
      assert ALPHABET[a] != ALPHABET[b];
    } else {
      assert ALPHABET[b] != ALPHABET[a];
    }
  }

  /** The next 64 ids BlockDraw generates from `start`, in order. */
  function BlockIds(start: nat): seq<Id>
  {
    seq(ALPHABET_SIZE, k requires 0 <= k => NthId(BlockDraw, start, k))
  }

  /** The first 64 ids BlockDraw generates from `start` on are 64 ids. */
  lemma BlockIdsCount(start: nat)
    ensures |set x | x in BlockIds(start)| == ALPHABET_SIZE
  {
    var ids := BlockIds(start);
    forall j, k | 0 <= j < k < |ids|
      ensures ids[j] != ids[k]
    {
      BlockIdsDistinct(start, j, k);
    }
    DistinctCard(ids, set x | x in ids);
  }

  /** BlockDraw's first id from position 0 is 21 'a's. */
  lemma BlockFirstId()
    ensures NthId(BlockDraw, 0, 0) == seq(NANOID_LENGTH, _ => 'a')
  {
    AlphabetCodes();
    var w := Window(BlockDraw, 0, NANOID_LENGTH);
    forall i | 0 <= i < NANOID_LENGTH
      ensures Spell(w)[i] == 'a'
    {
      assert w[i] == BlockDraw(i) == 0;
    }
  }

  lemma SubsetCard(a: set<Id>, b: set<Id>)
    requires a <= b
    ensures |a| <= |b|
  {
    assert b == a + (b - a);
  }

  /** BlockDraw meets the premise for up to 63 taken ids: of the next 64 ids
      it generates from any position, one is outside any 63 ids. */
  lemma BlockDrawUnconfined()
    ensures Unconfined(BlockDraw, ALPHABET_SIZE - 1)
  {
    forall known: set<Id>, start: nat | |known| <= ALPHABET_SIZE - 1
      ensures FreshAhead(BlockDraw, known, start)
    {
      var ids := BlockIds(start);
      var ahead := set x | x in ids;
      BlockIdsCount(start);
      SubsetCard(ahead * known, known);
      assert ahead == (ahead - known) + (ahead * known);
      var id :| id in ahead - known;
      var k :| 0 <= k < |ids| && ids[k] == id;
      assert NthId(BlockDraw, start, k) !in known;
    }
  }

  /** `id` is the first of the nanoids generated from position `start` on that
      is not in `taken`, and generating it moved the source to `end`. */
  ghost predicate FirstUntaken(draw: nat -> Draw, start: nat, end: nat, taken: set<Id>, id: Id) {
    exists n: nat ::
      && id == NthId(draw, start, n)
      && end == start + NANOID_LENGTH * (n + 1)
      && forall m :: 0 <= m < n ==> NthId(draw, start, m) in taken
  }

  /** When the first generated id is not taken, it is the one returned. */
  lemma FirstUntakenAtOnce(draw: nat -> Draw, start: nat, end: nat, taken: set<Id>, id: Id)
    requires FirstUntaken(draw, start, end, taken, id) && NthId(draw, start, 0) !in taken
    ensures id == NthId(draw, start, 0) && end == start + NANOID_LENGTH
  {
  }

  /** The returned id fixes where the source stops: two runs of the retry
      loop that return the same untaken id end at the same position. */
  lemma FirstUntakenFixesEnd(draw: nat -> Draw, start: nat, end1: nat, end2: nat, taken: set<Id>, id: Id)
    requires FirstUntaken(draw, start, end1, taken, id) && FirstUntaken(draw, start, end2, taken, id)
    requires id !in taken
    ensures end1 == end2
  {
    var n1: nat :| && id == NthId(draw, start, n1)
                    && end1 == start + NANOID_LENGTH * (n1 + 1)
                    && forall m :: 0 <= m < n1 ==> NthId(draw, start, m) in taken;
    var n2: nat :| && id == NthId(draw, start, n2)
                    && end2 == start + NANOID_LENGTH * (n2 + 1)
                    && forall m :: 0 <= m < n2 ==> NthId(draw, start, m) in taken;
    assert n1 < n2 ==> NthId(draw, start, n1) in taken;
    assert n2 < n1 ==> NthId(draw, start, n2) in taken;
  }

  /** The cryptographic source behind `secrets.choice`, injected: `draw(n)` is
      the index into ALPHABET of the `n`-th choice; `cursor` counts the
      choices made so far. */
  class RandomSource {
    const draw: nat -> Draw
    var cursor: nat

    constructor (draw: nat -> Draw)
      ensures this.draw == draw && cursor == 0
    {
      this.draw := draw;
      cursor := 0;
    }

    /** `secrets.choice(alphabet)`. */
    method Choice() returns (c: char)
      modifies this
      ensures c == ALPHABET[draw(old(cursor))]
      ensures cursor == old(cursor) + 1
    {
      c := ALPHABET[draw(cursor)];
      cursor := cursor + 1;
    }

    /** `generate_nanoid(length)`: `length` choices from ALPHABET. */
    method GenerateNanoid(length: nat) returns (id: Id)
      modifies this
      ensures id == Spell(Window(draw, old(cursor), length))
      ensures cursor == old(cursor) + length
      ensures |id| == length && forall i :: 0 <= i < |id| ==> IsUrlSafe(id[i])
    {
      id := "";
      for i := 0 to length
        invariant cursor == old(cursor) + i
        invariant id == Spell(Window(draw, old(cursor), i))
      {
        var c := Choice();
        id := id + [c];
      }
      AlphabetIsUrlSafe();
    }

    /** The retry loop of get_permanent_uri_for_key: generate a nanoid and
        generate again while it is already `taken`. */
    method GenerateUnusedId(taken: set<Id>) returns (id: Id)
      requires FreshAhead(draw, taken, cursor)
      modifies this
      ensures IsNanoid(id) && id !in taken
      ensures FirstUntaken(draw, old(cursor), cursor, taken, id)
    {
      ghost var k: nat :| NthId(draw, cursor, k) !in taken;
      ghost var n: nat := 0;
      id := GenerateNanoid(NANOID_LENGTH);
      while id in taken
        invariant n <= k
        invariant id == NthId(draw, old(cursor), n) && IsNanoid(id)
        invariant cursor == old(cursor) + NANOID_LENGTH * (n + 1)
        invariant forall m :: 0 <= m < n ==> NthId(draw, old(cursor), m) in taken
        decreases k - n
      {
        n := n + 1;
        id := GenerateNanoid(NANOID_LENGTH);
      }
    }
  }

  // ---------------------------------------------------------------------------
  // The permanent URI map (id -> key), an insertion-ordered dict
  // ---------------------------------------------------------------------------

  /** `ids` lists the keys of `entries` once each, in the dict's insertion order. */
  ghost predicate Ordered(ids: seq<Id>, entries: map<Id, Key>) {
    && (forall i, j :: 0 <= i < j < |ids| ==> ids[i] != ids[j])
    && (forall i :: 0 <= i < |ids| ==> ids[i] in entries)
    && (forall id :: id in entries ==> id in ids)
  }

  /** No key has two ids. */
  ghost predicate OneIdPerKey(entries: map<Id, Key>) {
    forall a, b :: a in entries && b in entries && entries[a] == entries[b] ==> a == b
  }

  /** The id the reverse scan of get_permanent_uri_for_key returns: the first
      id, in dict order, whose entry is `key`. */
  function FirstIdFor(ids: seq<Id>, entries: map<Id, Key>, key: Key): Option<Id>
  {
    if ids == [] then None
    else if ids[0] in entries && entries[ids[0]] == key then Some(ids[0])
    else FirstIdFor(ids[1..], entries, key)
  }

  /** The scan returns the first position whose entry is `key`. */
  lemma {:induction false} FirstIdForIsFirstMatch(ids: seq<Id>, entries: map<Id, Key>, key: Key, i: nat)
    requires i < |ids| && ids[i] in entries && entries[ids[i]] == key
    requires forall j :: 0 <= j < i ==> !(ids[j] in entries && entries[ids[j]] == key)
    ensures FirstIdFor(ids, entries, key) == Some(ids[i])
  {
    if i > 0 {
      assert !(ids[0] in entries && entries[ids[0]] == key);
      FirstIdForIsFirstMatch(ids[1..], entries, key, i - 1);
    }
  }

  /** The scan finds nothing exactly when no position holds `key`. */
  lemma {:induction false} FirstIdForNone(ids: seq<Id>, entries: map<Id, Key>, key: Key)
    ensures FirstIdFor(ids, entries, key) == None
        <==> forall j :: 0 <= j < |ids| ==> !(ids[j] in entries && entries[ids[j]] == key)
  {
    if ids != [] {
      FirstIdForNone(ids[1..], entries, key);
      assert forall j :: 1 <= j < |ids| ==> ids[j] == ids[1..][j - 1];
    }
  }

  /** What the scan finds is an id of the map whose entry is `key`. */
  lemma {:induction false} FirstIdForSound(ids: seq<Id>, entries: map<Id, Key>, key: Key)
    requires FirstIdFor(ids, entries, key).Some?
    ensures FirstIdFor(ids, entries, key).value in ids
    ensures FirstIdFor(ids, entries, key).value in entries
    ensures entries[FirstIdFor(ids, entries, key).value] == key
  {
    if !(ids[0] in entries && entries[ids[0]] == key) {
      FirstIdForSound(ids[1..], entries, key);
    }
  }

  /** On a well-formed map the scan finds nothing exactly when `key` is not a value. */
  lemma FirstIdForMissing(ids: seq<Id>, entries: map<Id, Key>, key: Key)
    requires Ordered(ids, entries)
    ensures FirstIdFor(ids, entries, key).None? <==> key !in entries.Values
  {
    FirstIdForNone(ids, entries, key);
    if key in entries.Values {
      var id :| id in entries && entries[id] == key;
      var j :| 0 <= j < |ids| && ids[j] == id;
    }
  }

  /** Appending a fresh id changes the scan only for its own key, and only
      when that key had no id before. */
  lemma {:induction false} FirstIdForInsert(ids: seq<Id>, entries: map<Id, Key>, id: Id, key: Key, k: Key)
    requires id !in ids
    ensures FirstIdFor(ids + [id], entries[id := key], k)
         == if FirstIdFor(ids, entries, k).Some? then FirstIdFor(ids, entries, k)
            else if key == k then Some(id)
            else None
  {
    if ids == [] {
      assert FirstIdFor(ids + [id], entries[id := key], k)
          == if key == k then Some(id) else FirstIdFor([], entries[id := key], k);
    } else {
      assert (ids + [id])[1..] == ids[1..] + [id];
      FirstIdForInsert(ids[1..], entries, id, key, k);
    }
  }

  lemma InsertFreshValues(entries: map<Id, Key>, id: Id, key: Key)
    requires id !in entries
    ensures entries[id := key].Values == entries.Values + {key}
  {
    forall v | v in entries.Values
      ensures v in entries[id := key].Values
    {
      var x :| x in entries && entries[x] == v;
      assert entries[id := key][x] == v;
    }
    assert entries[id := key][id] == key;
  }

  /** Appending a fresh id for a key that had none keeps the map well formed
      and grows it by exactly that entry. */
  lemma InsertFresh(ids: seq<Id>, entries: map<Id, Key>, id: Id, key: Key)
    requires Ordered(ids, entries) && id !in entries && key !in entries.Values && IsNanoid(id)
    ensures Ordered(ids + [id], entries[id := key])
    ensures Extends(ids, entries, ids + [id], entries[id := key])
    ensures entries[id := key].Values == entries.Values + {key}
    ensures |entries[id := key]| == |entries| + 1
  {
    InsertKeepsOrdered(ids, entries, id, key);
    InsertFreshValues(entries, id, key);
    InsertExtends(ids, entries, id, key);
  }

  lemma InsertExtends(ids: seq<Id>, entries: map<Id, Key>, id: Id, key: Key)
    requires id !in entries && IsNanoid(id)
    ensures Extends(ids, entries, ids + [id], entries[id := key])
  {
  }

  lemma InsertKeepsOrdered(ids: seq<Id>, entries: map<Id, Key>, id: Id, key: Key)
    requires Ordered(ids, entries) && id !in entries
    ensures Ordered(ids + [id], entries[id := key])
  {
    var ids1, e1 := ids + [id], entries[id := key];
    forall i, j | 0 <= i < j < |ids1|
      ensures ids1[i] != ids1[j]
    {
      assert ids1[i] == ids[i];
      if j < |ids| { assert ids1[j] == ids[j]; }
    }
    forall i | 0 <= i < |ids1|
      ensures ids1[i] in e1
    {
      if i < |ids| { assert ids1[i] == ids[i]; }
    }
    forall x | x in e1
      ensures x in ids1
    {
      if x != id {
        var i :| 0 <= i < |ids| && ids[i] == x;
        assert ids1[i] == x;
      } else {
        assert ids1[|ids|] == x;
      }
    }
  }

  lemma InsertKeepsIds(ids: seq<Id>, entries: map<Id, Key>, id: Id, key: Key)
    requires id !in ids && FirstIdFor(ids, entries, key).None?
    ensures FirstIdFor(ids + [id], entries[id := key], key) == Some(id)
    ensures forall k :: FirstIdFor(ids, entries, k).Some? ==>
              FirstIdFor(ids + [id], entries[id := key], k) == FirstIdFor(ids, entries, k)
  {
    forall k | true
      ensures FirstIdFor(ids + [id], entries[id := key], k)
           == if FirstIdFor(ids, entries, k).Some? then FirstIdFor(ids, entries, k)
              else if key == k then Some(id)
              else None
    {
      FirstIdForInsert(ids, entries, id, key, k);
    }
  }

  lemma InsertKeepsOneIdPerKey(entries: map<Id, Key>, id: Id, key: Key)
    requires id !in entries && key !in entries.Values
    ensures OneIdPerKey(entries) ==> OneIdPerKey(entries[id := key])
  {
  }

  /** `ids1`/`e1` grow `ids0`/`e0` by appending nanoids: every old entry keeps
      its position and its key. */
  ghost predicate Extends(ids0: seq<Id>, e0: map<Id, Key>, ids1: seq<Id>, e1: map<Id, Key>) {
    && |ids0| <= |ids1| && ids1[..|ids0|] == ids0
    && (forall id :: id in e0 ==> id in e1 && e1[id] == e0[id])
    && (forall id :: id in e1 && id !in e0 ==> IsNanoid(id))
  }

  /** Growing a map by appending entries never changes a key's id: the first
      match in the old order is still the first match. */
  lemma {:induction false} FirstIdForAppend(ids0: seq<Id>, rest: seq<Id>, e0: map<Id, Key>, e1: map<Id, Key>, k: Key)
    requires forall id :: id in ids0 ==> id in e0 && id in e1 && e1[id] == e0[id]
    requires FirstIdFor(ids0, e0, k).Some?
    ensures FirstIdFor(ids0 + rest, e1, k) == FirstIdFor(ids0, e0, k)
  {
    assert (ids0 + rest)[0] == ids0[0];
    if e0[ids0[0]] != k {
      assert (ids0 + rest)[1..] == ids0[1..] + rest;
      FirstIdForAppend(ids0[1..], rest, e0, e1, k);
    }
  }

  lemma FirstIdForExtends(ids0: seq<Id>, e0: map<Id, Key>, ids1: seq<Id>, e1: map<Id, Key>)
    requires Ordered(ids0, e0) && Extends(ids0, e0, ids1, e1)
    ensures forall k :: FirstIdFor(ids0, e0, k).Some? ==> FirstIdFor(ids1, e1, k) == FirstIdFor(ids0, e0, k)
  {
    assert ids1 == ids0 + ids1[|ids0|..];
    forall k | FirstIdFor(ids0, e0, k).Some?
      ensures FirstIdFor(ids1, e1, k) == FirstIdFor(ids0, e0, k)
    {
      FirstIdForAppend(ids0, ids1[|ids0|..], e0, e1, k);
    }
  }

  lemma ExtendsReflexive(ids: seq<Id>, e: map<Id, Key>)
    ensures Extends(ids, e, ids, e)
  {
  }

  lemma ExtendsTransitive(ids0: seq<Id>, e0: map<Id, Key>, ids1: seq<Id>, e1: map<Id, Key>,
                          ids2: seq<Id>, e2: map<Id, Key>)
    requires Extends(ids0, e0, ids1, e1) && Extends(ids1, e1, ids2, e2)
    ensures Extends(ids0, e0, ids2, e2)
  {
  }

  /** The permanent URI map the scripts load, mutate and save: `entries` maps
      each id to its S3 key and `ids` keeps the dict's insertion order. */
  class PermanentUriMap {
    var ids: seq<Id>
    var entries: map<Id, Key>

    ghost predicate Valid()
      reads this
    {
      Ordered(ids, entries)
    }

    /** The map as load_permanent_uri_map returns it. */
    constructor (ids: seq<Id>, entries: map<Id, Key>)
      requires Ordered(ids, entries)
      ensures Valid() && this.ids == ids && this.entries == entries
    {
      this.ids := ids;
      this.entries := entries;
    }

    /** The reverse scan at the top of get_permanent_uri_for_key: the first id,
        in dict order, whose entry is `s3Key`. */
    method FindIdFor(s3Key: Key) returns (found: Option<Id>)
      requires Valid()
      ensures found == FirstIdFor(ids, entries, s3Key)
      ensures found.Some? ==> found.value in entries && entries[found.value] == s3Key
      ensures found.None? <==> s3Key !in entries.Values
    {
      for i := 0 to |ids|
        invariant forall j :: 0 <= j < i ==> !(ids[j] in entries && entries[ids[j]] == s3Key)
      {
        if entries[ids[i]] == s3Key {
          FirstIdForIsFirstMatch(ids, entries, s3Key, i);
          return Some(ids[i]);
        }
      }
      FirstIdForNone(ids, entries, s3Key);
      FirstIdForMissing(ids, entries, s3Key);
      return None;
    }

    /** get_permanent_uri_for_key: the id already mapped to `s3Key`, or a fresh
        nanoid, re-drawn while it collides with an existing id, that is then
        mapped to `s3Key`. */
    method GetPermanentUriForKey(s3Key: Key, rng: RandomSource) returns (uriId: Id)
      requires Valid()
      // a new key needs a generated id outside the map's ids for the retry loop to end
      requires s3Key in entries.Values || FreshAhead(rng.draw, entries.Keys, rng.cursor)
      modifies this, rng
      ensures Valid()
      // an existing mapping wins: the first matching id in dict order, nothing changes
      ensures FirstIdFor(old(ids), old(entries), s3Key).Some? ==>
        && uriId == FirstIdFor(old(ids), old(entries), s3Key).value
        && ids == old(ids) && entries == old(entries)
        && rng.cursor == old(rng.cursor)
      // otherwise the first generated id that is not already taken is appended
      ensures FirstIdFor(old(ids), old(entries), s3Key).None? ==>
        && IsNanoid(uriId) && uriId !in old(entries)
        && ids == old(ids) + [uriId] && entries == old(entries)[uriId := s3Key]
        && FirstUntaken(rng.draw, old(rng.cursor), rng.cursor, old(entries).Keys, uriId)
      ensures uriId in entries && entries[uriId] == s3Key
      ensures |entries| == |old(entries)| + (if s3Key in old(entries).Values then 0 else 1)
      ensures entries.Values == old(entries).Values + {s3Key}
      // asking again returns the same id
      ensures FirstIdFor(ids, entries, s3Key) == Some(uriId)
      // every other entry and its position stay as they were
      ensures Extends(old(ids), old(entries), ids, entries)
      // every key keeps its id, and no key gains a second id
      ensures forall k :: FirstIdFor(old(ids), old(entries), k).Some? ==>
                FirstIdFor(ids, entries, k) == FirstIdFor(old(ids), old(entries), k)
      ensures OneIdPerKey(old(entries)) ==> OneIdPerKey(entries)
    {
      var existing := FindIdFor(s3Key);
      if existing.Some? {
        ExtendsReflexive(ids, entries);
        return existing.value;
      }
      FirstIdForMissing(ids, entries, s3Key);
      uriId := MapToNewId(s3Key, rng);
    }

    /** The second half of get_permanent_uri_for_key, for a key with no id:
        draw the first untaken nanoid and map it to `s3Key`. */
    method MapToNewId(s3Key: Key, rng: RandomSource) returns (uriId: Id)
      requires Valid() && s3Key !in entries.Values
      requires FreshAhead(rng.draw, entries.Keys, rng.cursor)
      modifies this, rng
      ensures Valid()
      ensures IsNanoid(uriId) && uriId !in old(entries)
      ensures ids == old(ids) + [uriId] && entries == old(entries)[uriId := s3Key]
      ensures FirstUntaken(rng.draw, old(rng.cursor), rng.cursor, old(entries).Keys, uriId)
      ensures |entries| == |old(entries)| + 1
      ensures entries.Values == old(entries).Values + {s3Key}
      ensures FirstIdFor(ids, entries, s3Key) == Some(uriId)
      ensures Extends(old(ids), old(entries), ids, entries)
      ensures forall k :: FirstIdFor(old(ids), old(entries), k).Some? ==>
                FirstIdFor(ids, entries, k) == FirstIdFor(old(ids), old(entries), k)
      ensures OneIdPerKey(old(entries)) ==> OneIdPerKey(entries)
    {
      FirstIdForMissing(ids, entries, s3Key);
      var newId := rng.GenerateUnusedId(entries.Keys);
      var grownIds, grownEntries := ids + [newId], entries[newId := s3Key];
      InsertFresh(ids, entries, newId, s3Key);
      InsertKeepsIds(ids, entries, newId, s3Key);
      InsertKeepsOneIdPerKey(entries, newId, s3Key);
      ids, entries, uriId := grownIds, grownEntries, newId;
    }

    /** Two get-or-create calls for the same key: both return the same id,
        and the second call leaves the map and the source as the first left
        them. */
    method GetPermanentUriTwice(s3Key: Key, rng: RandomSource) returns (first: Id, second: Id)
      requires Valid()
      requires s3Key in entries.Values || FreshAhead(rng.draw, entries.Keys, rng.cursor)
      modifies this, rng
      ensures Valid() && first == second
      ensures first in entries && entries[first] == s3Key
      ensures FirstIdFor(old(ids), old(entries), s3Key).Some? ==>
                ids == old(ids) && entries == old(entries) && rng.cursor == old(rng.cursor)
      ensures FirstIdFor(old(ids), old(entries), s3Key).None? ==>
                && ids == old(ids) + [first] && entries == old(entries)[first := s3Key]
                && first !in old(entries)
                && FirstUntaken(rng.draw, old(rng.cursor), rng.cursor, old(entries).Keys, first)
    {
      first := GetPermanentUriForKey(s3Key, rng);
      ghost var ids1, entries1, cursor1 := ids, entries, rng.cursor;
      second := GetPermanentUriForKey(s3Key, rng);
      assert ids == ids1 && entries == entries1 && rng.cursor == cursor1;
    }
  }

  // ---------------------------------------------------------------------------
  // The key filter of list_all_files_in_prefix
  // ---------------------------------------------------------------------------

  /** Python's `str.lower` on one ASCII character. */
  function LowerChar(c: char): char {
    if 'A' <= c <= 'Z' then (c as int + 32) as char else c
  }

  /** Python's `str.lower` on a key: the ASCII capitals become small letters,
      every other character stays. */
  function Lower(s: string): (r: string)
    ensures |r| == |s|
    ensures forall i :: 0 <= i < |s| ==> !('A' <= r[i] <= 'Z')
    ensures forall i :: 0 <= i < |s| && 'A' <= s[i] <= 'Z' ==> r[i] as int == s[i] as int + 32
    ensures forall i :: 0 <= i < |s| && !('A' <= s[i] <= 'Z') ==> r[i] == s[i]
  {
    seq(|s|, i requires 0 <= i < |s| => LowerChar(s[i]))
  }

  /** Python's `str.endswith`. */
  predicate EndsWith(s: string, suffix: string) {
    |suffix| <= |s| && s[|s| - |suffix|..] == suffix
  }

  /** `s` ends with `suffix` exactly when some string followed by `suffix`
      is `s`. */
  lemma EndsWithIsSuffix(s: string, suffix: string)
    ensures EndsWith(s, suffix) <==> exists prefix :: s == prefix + suffix
  {
    if EndsWith(s, suffix) {
      assert s == s[..|s| - |suffix|] + suffix;
    }
  }

  /** A listed object that is neither a directory marker nor a .DS_Store file. */
  predicate IsListedFile(key: Key) {
    && !EndsWith(key, "/")
    && !EndsWith(Lower(key), "/.ds_store")
    && Lower(key) != ".ds_store"
  }

  /** The keys of `listing` the filter keeps, in listing order. */
  function KeptKeys(listing: seq<Key>): (kept: seq<Key>)
    ensures |kept| <= |listing|
  {
    if listing == [] then []
    else
      var last := listing[|listing| - 1];
      KeptKeys(listing[..|listing| - 1]) + (if IsListedFile(last) then [last] else [])
  }

  /** The filter keeps a key exactly when it is listed and is a file. */
  lemma {:induction false} KeptKeysMembers(listing: seq<Key>)
    ensures forall k :: k in KeptKeys(listing) <==> k in listing && IsListedFile(k)
  {
    if listing != [] {
      var init := listing[..|listing| - 1];
      KeptKeysMembers(init);
      assert listing == init + [listing[|listing| - 1]];
    }
  }

  /** The filter works piecewise, so kept keys stay in listing order. */
  lemma {:induction false} KeptKeysAppend(a: seq<Key>, b: seq<Key>)
    ensures KeptKeys(a + b) == KeptKeys(a) + KeptKeys(b)
  {
    if b == [] {
      assert a + b == a;
    } else {
      var init := b[..|b| - 1];
      KeptKeysAppend(a, init);
      assert (a + b)[..|a + b| - 1] == a + init;
    }
  }

  /** A listing without repeated keys is filtered into one. */
  lemma {:induction false} KeptKeysDistinct(listing: seq<Key>)
    requires Distinct(listing)
    ensures Distinct(KeptKeys(listing))
  {
    if listing != [] {
      var init := listing[..|listing| - 1];
      KeptKeysDistinct(init);
      KeptKeysMembers(init);
    }
  }

  /** The filter loop of list_all_files_in_prefix over one listing of S3 keys. */
  method ListAllFilesInPrefix(listing: seq<Key>) returns (allFiles: seq<Key>)
    ensures allFiles == KeptKeys(listing) && |allFiles| <= |listing|
    ensures forall k :: k in allFiles <==> k in listing && IsListedFile(k)
  {
    allFiles := [];
    for i := 0 to |listing|
      invariant allFiles == KeptKeys(listing[..i])
    {
      var key := listing[i];
      assert listing[..i + 1][..i] == listing[..i];
      if !EndsWith(key, "/") && !EndsWith(Lower(key), "/.ds_store") && Lower(key) != ".ds_store" {
        allFiles := allFiles + [key];
      }
    }
    assert listing[..|listing|] == listing;
    KeptKeysMembers(listing);
  }

  // ---------------------------------------------------------------------------
  // The registration loop of generate_uris_for_repository
  // ---------------------------------------------------------------------------

  /** The keys of `files` that are not among `known`. */
  function NewKeys(files: seq<Key>, known: set<Key>): (added: set<Key>)
    ensures |added| <= |files|
  {
    if files == [] then {}
    else
      var last := files[|files| - 1];
      NewKeys(files[..|files| - 1], known) + (if last in known then {} else {last})
  }

  lemma {:induction false} NewKeysMembers(files: seq<Key>, known: set<Key>)
    ensures forall k :: k in NewKeys(files, known) <==> k in files && k !in known
  {
    if files != [] {
      var init := files[..|files| - 1];
      NewKeysMembers(init, known);
      assert files == init + [files[|files| - 1]];
    }
  }

  /** How many positions of `files` hold a key not among `known`: what the
      `new_mappings` counter reaches. */
  function CountNew(files: seq<Key>, known: set<Key>): nat {
    if files == [] then 0
    else CountNew(files[..|files| - 1], known) + (if files[|files| - 1] in known then 0 else 1)
  }

  /** Over distinct keys the counter equals the number of new keys. */
  lemma {:induction false} CountNewOfDistinct(files: seq<Key>, known: set<Key>)
    requires Distinct(files)
    ensures CountNew(files, known) == |NewKeys(files, known)|
  {
    if files != [] {
      var init, last := files[..|files| - 1], files[|files| - 1];
      CountNewOfDistinct(init, known);
      NewKeysMembers(init, known);
    }
  }

  /** The counter never falls short of the number of new keys; it exceeds it
      only when the listing repeats a new key. */
  lemma {:induction false} CountNewAtLeastNewKeys(files: seq<Key>, known: set<Key>)
    ensures CountNew(files, known) >= |NewKeys(files, known)|
  {
    if files != [] {
      var init, last := files[..|files| - 1], files[|files| - 1];
      CountNewAtLeastNewKeys(init, known);
      NewKeysMembers(init, known);
    }
  }

  /** One more position of the listing adds its key when it is new. */
  lemma NewKeysStep(files: seq<Key>, i: nat, known: set<Key>)
    requires i < |files|
    ensures NewKeys(files[..i + 1], known)
         == NewKeys(files[..i], known) + (if files[i] in known then {} else {files[i]})
    ensures CountNew(files[..i + 1], known)
         == CountNew(files[..i], known) + (if files[i] in known then 0 else 1)
  {
    var prefix := files[..i + 1];
    assert prefix[..|prefix| - 1] == files[..i];
    assert prefix[|prefix| - 1] == files[i];
  }

  /** Registering a key outside `known` adds it to the keys registered so
      far, and adds one to their number unless it was already among them. */
  lemma JoinKey(known: set<Key>, done: set<Key>, x: Key)
    requires x !in known
    ensures (known + done) + {x} == known + (done + {x})
    ensures |done + {x}| == |done| + (if x in known + done then 0 else 1)
  {
    if x in done {
      assert done + {x} == done;
    }
  }

  /** The bookkeeping of one turn of the registration loop: `registered` are
      the keys with an id before the turn. */
  lemma RegisterStep(files: seq<Key>, i: nat, known: set<Key>, registered: set<Key>)
    requires i < |files| && registered == known + NewKeys(files[..i], known)
    ensures files[i] in known ==>
      && NewKeys(files[..i + 1], known) == NewKeys(files[..i], known)
      && CountNew(files[..i + 1], known) == CountNew(files[..i], known)
    ensures files[i] !in known ==>
      && registered + {files[i]} == known + NewKeys(files[..i + 1], known)
      && |NewKeys(files[..i + 1], known)|
         == |NewKeys(files[..i], known)| + (if files[i] in registered then 0 else 1)
      && CountNew(files[..i + 1], known) == CountNew(files[..i], known) + 1
  {
    NewKeysStep(files, i, known);
    if files[i] !in known {
      JoinKey(known, NewKeys(files[..i], known), files[i]);
    }
  }

  /** For a listing without repeated keys (as an S3 listing is), the counter
      over the kept keys equals the number of new keys. */
  lemma NewMappingsIsGrowth(listing: seq<Key>, known: set<Key>)
    requires Distinct(listing)
    ensures CountNew(KeptKeys(listing), known) == |NewKeys(KeptKeys(listing), known)|
  {
    KeptKeysDistinct(listing);
    CountNewOfDistinct(KeptKeys(listing), known);
  }

  /** The loop body's call of get_permanent_uri_for_key, seen from the loop:
      the key joins the values and the map grows by at most one entry. */
  method RegisterKey(uriMap: PermanentUriMap, s3Key: Key, rng: RandomSource, ghost bound: nat)
    requires uriMap.Valid() && Unconfined(rng.draw, bound) && |uriMap.entries| <= bound
    modifies uriMap, rng
    ensures uriMap.Valid()
    ensures Extends(old(uriMap.ids), old(uriMap.entries), uriMap.ids, uriMap.entries)
    ensures uriMap.entries.Values == old(uriMap.entries).Values + {s3Key}
    ensures |uriMap.entries| == |old(uriMap.entries)| + (if s3Key in old(uriMap.entries).Values then 0 else 1)
  {
    UnconfinedFreshAhead(rng.draw, bound, uriMap.entries, rng.cursor);
    var _ := uriMap.GetPermanentUriForKey(s3Key, rng);
  }

  /** The registration loop's state after `i` turns: the map extends the one
      the loop started from (`ids0`, `entries0`, whose values are
      `existingKeys`) by exactly the new keys among the first `i` files. */
  ghost predicate RegisteredUpTo(uriMap: PermanentUriMap, allFiles: seq<Key>, i: nat, existingKeys: set<Key>,
                                 ids0: seq<Id>, entries0: map<Id, Key>)
    requires i <= |allFiles|
    reads uriMap
  {
    && uriMap.Valid()
    && Extends(ids0, entries0, uriMap.ids, uriMap.entries)
    && uriMap.entries.Values == existingKeys + NewKeys(allFiles[..i], existingKeys)
    && |uriMap.entries| == |entries0| + |NewKeys(allFiles[..i], existingKeys)|
  }

  /** `bound` leaves room for every file to add an entry. */
  predicate Room(entries: map<Id, Key>, allFiles: seq<Key>, bound: nat) {
    |entries| + |allFiles| <= bound
  }

  /** One turn of the registration loop: the `i`-th file is registered
      unless its key was a value when the loop started; `counted` is what the
      turn adds to new_mappings. */
  method RegisterTurn(uriMap: PermanentUriMap, allFiles: seq<Key>, i: nat, existingKeys: set<Key>,
                      rng: RandomSource, ghost ids0: seq<Id>, ghost entries0: map<Id, Key>, ghost bound: nat)
    returns (counted: nat)
    requires i < |allFiles| && RegisteredUpTo(uriMap, allFiles, i, existingKeys, ids0, entries0)
    requires Unconfined(rng.draw, bound) && Room(entries0, allFiles, bound)
    modifies uriMap, rng
    ensures RegisteredUpTo(uriMap, allFiles, i + 1, existingKeys, ids0, entries0)
    ensures CountNew(allFiles[..i + 1], existingKeys) == CountNew(allFiles[..i], existingKeys) + counted
  {
    var s3Key := allFiles[i];
    RegisterStep(allFiles, i, existingKeys, uriMap.entries.Values);
    counted := 0;
    if s3Key !in existingKeys {
      ghost var ids1, entries1 := uriMap.ids, uriMap.entries;
      RegisterKey(uriMap, s3Key, rng, bound);
      ExtendsTransitive(ids0, entries0, ids1, entries1, uriMap.ids, uriMap.entries);
      counted := 1;
    }
  }

  /** The registration loop of generate_uris_for_repository over the filtered
      keys: every key that was not a value when the loop started is registered,
      and the calls are counted. */
  method RegisterAll(uriMap: PermanentUriMap, allFiles: seq<Key>, rng: RandomSource, ghost bound: nat)
    returns (newMappings: nat)
    requires uriMap.Valid()
    // every turn finds a fresh id: the loop ends with at most `bound` ids taken
    requires Unconfined(rng.draw, bound) && Room(uriMap.entries, allFiles, bound)
    modifies uriMap, rng
    ensures uriMap.Valid()
    ensures Extends(old(uriMap.ids), old(uriMap.entries), uriMap.ids, uriMap.entries)
    ensures uriMap.entries.Values
         == old(uriMap.entries).Values + NewKeys(allFiles, old(uriMap.entries).Values)
    ensures |uriMap.entries|
         == |old(uriMap.entries)| + |NewKeys(allFiles, old(uriMap.entries).Values)|
    ensures newMappings == CountNew(allFiles, old(uriMap.entries).Values)
  {
    newMappings := 0;
    var existingKeys := uriMap.entries.Values;
    ghost var ids0, entries0 := uriMap.ids, uriMap.entries;
    ExtendsReflexive(ids0, entries0);
    for i := 0 to |allFiles|
      invariant RegisteredUpTo(uriMap, allFiles, i, existingKeys, ids0, entries0)
      invariant newMappings == CountNew(allFiles[..i], existingKeys)
    {
      var counted := RegisterTurn(uriMap, allFiles, i, existingKeys, rng, ids0, entries0, bound);
      newMappings := newMappings + counted;
    }
    assert allFiles[..|allFiles|] == allFiles;
  }

  /** generate_uris_for_repository with the S3 listing of the repository
      prefix as input: filters it, then registers every file whose key was not
      a value of the map when the loop started, counting the calls. */
  method GenerateUrisForRepository(uriMap: PermanentUriMap, listing: seq<Key>, rng: RandomSource)
    returns (newMappings: nat)
    requires uriMap.Valid() && Unconfined(rng.draw, |uriMap.entries| + |listing|)
    modifies uriMap, rng
    ensures uriMap.Valid()
    // existing entries, their order and every key's id are untouched
    ensures Extends(old(uriMap.ids), old(uriMap.entries), uriMap.ids, uriMap.entries)
    ensures forall k :: FirstIdFor(old(uriMap.ids), old(uriMap.entries), k).Some? ==>
              FirstIdFor(uriMap.ids, uriMap.entries, k) == FirstIdFor(old(uriMap.ids), old(uriMap.entries), k)
    // every listed file has an id, and the only new keys are listed files
    ensures forall k :: k in KeptKeys(listing) ==> k in uriMap.entries.Values
    ensures uriMap.entries.Values
         == old(uriMap.entries).Values + NewKeys(KeptKeys(listing), old(uriMap.entries).Values)
    // one new entry per new key
    ensures |uriMap.entries|
         == |old(uriMap.entries)| + |NewKeys(KeptKeys(listing), old(uriMap.entries).Values)|
    ensures newMappings == CountNew(KeptKeys(listing), old(uriMap.entries).Values)
    // an S3 listing repeats no key, and then the counter is final minus initial size
    ensures Distinct(listing) ==> newMappings == |uriMap.entries| - |old(uriMap.entries)|
  {
    var allFiles := ListAllFilesInPrefix(listing);
    newMappings := RegisterAll(uriMap, allFiles, rng, |uriMap.entries| + |listing|);
    if Distinct(listing) {
      NewMappingsIsGrowth(listing, old(uriMap.entries).Values);
    }
    NewKeysMembers(allFiles, old(uriMap.entries).Values);
    FirstIdForExtends(old(uriMap.ids), old(uriMap.entries), uriMap.ids, uriMap.entries);
  }

  /** A listing with a file, a directory marker, a second file and a
      .DS_Store file keeps the two files. */
  lemma KeptKeysOfSampleListing()
    ensures KeptKeys(["a.csv", "docs/", "b.csv", "docs/.DS_Store"]) == ["a.csv", "b.csv"]
  {
    assert IsListedFile("a.csv");
    assert !IsListedFile("docs/");
    assert IsListedFile("b.csv");
    var low := Lower("docs/.DS_Store");
    assert low == "docs/.ds_store" by {
      forall i | 0 <= i < |low|
        ensures low[i] == "docs/.ds_store"[i]
      {
        assert low[i] == LowerChar("docs/.DS_Store"[i]);
      }
    }
    assert low[|low| - 10..] == "/.ds_store";
    assert !IsListedFile("docs/.DS_Store");
    var listing := ["a.csv", "docs/", "b.csv", "docs/.DS_Store"];
    assert listing[..1][..0] == [];
    assert KeptKeys(listing[..1]) == ["a.csv"];
    assert listing[..2][..1] == listing[..1];
    assert KeptKeys(listing[..2]) == ["a.csv"];
    assert listing[..3][..2] == listing[..2];
    assert KeptKeys(listing[..3]) == ["a.csv", "b.csv"];
    assert listing[..3] == listing[..|listing| - 1];
  }

  /** The first get-or-create on an empty map with a fresh BlockDraw source
      returns the id of 21 'a's. */
  method FirstIdOnBlockDraw() returns (first: Id)
    ensures first == seq(NANOID_LENGTH, _ => 'a')
  {
    var rng := new RandomSource(BlockDraw);
    var uriMap := new PermanentUriMap([], map[]);
    assert uriMap.entries.Keys == {} && NthId(BlockDraw, 0, 0) !in uriMap.entries.Keys;
    first := uriMap.GetPermanentUriForKey("a.csv", rng);
    FirstUntakenAtOnce(BlockDraw, 0, rng.cursor, {}, first);
    BlockFirstId();
  }

  lemma CountNewOfSampleListing()
    ensures CountNew(["a.csv", "b.csv"], {"a.csv"}) == 1
  {
    assert ["a.csv", "b.csv"][..1] == ["a.csv"];
    assert ["a.csv"][..0] == [];
  }

  /** On a map that already gives "a.csv" an id, generate_uris_for_repository
      over the sample listing adds one mapping, for "b.csv". */
  method RegisterOnBlockDraw() returns (newMappings: nat)
    ensures newMappings == 1
  {
    var id := seq(NANOID_LENGTH, _ => 'a');
    var rng := new RandomSource(BlockDraw);
    var uriMap := new PermanentUriMap([id], map[id := "a.csv"]);
    BlockDrawUnconfined();
    UnconfinedBelow(BlockDraw, ALPHABET_SIZE - 1, 5);
    KeptKeysOfSampleListing();
    assert uriMap.entries.Values == {"a.csv"} by {
      assert id in uriMap.entries && uriMap.entries[id] == "a.csv";
    }
    CountNewOfSampleListing();
    newMappings := GenerateUrisForRepository(uriMap, ["a.csv", "docs/", "b.csv", "docs/.DS_Store"], rng);
  }
}
