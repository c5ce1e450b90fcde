/** The persistent store: a snapshot per change, written aside and renamed into place (pkg/chain/store_disk.go). */
module Snapshots {
  import opened Bytes
  import opened Types
  import opened Work
  import opened Codec
  import opened ChainState

  datatype Record = Record(hash: string, block: Block)

  datatype Snapshot = Snapshot(
    genesisHash: string,
    currentTip: string,
    blocks: seq<Record>,
    heights: map<string, string>,
    totalWork: map<string, string>)

  function HashText(h: Hash): string { HexEncode(h.bytes) }

  function HeightText(k: uint64): string { FormatNat(k) }

  ghost predicate StrictlySorted(rs: seq<Record>) {
    forall i, j :: 0 <= i < j < |rs| ==> StringLess(rs[i].hash, rs[j].hash)
  }

  /** The snapshot is the text of this chain: blocks sorted by hash, heights in decimal, hashes in hex. */
  ghost predicate IsSnapshotOf(snap: Snapshot, s: Chain) {
    && snap.genesisHash == HashText(s.genesis)
    && snap.currentTip == HashText(s.tip)
    && StrictlySorted(snap.blocks)
    && (forall i :: 0 <= i < |snap.blocks| ==> IsRecord(s.blocks, snap.blocks[i]))
    && (forall h {:trigger s.blocks[h]} :: h in s.blocks ==> Record(HashText(h), s.blocks[h]) in snap.blocks)
    && Printed(snap.heights, s.heights, HeightText, HashText)
    && Printed(snap.totalWork, s.work, HashText, FormatInt)
  }

  ghost predicate IsRecord(blocks: map<Hash, Block>, r: Record) {
    exists h :: h in blocks && r == Record(HashText(h), blocks[h])
  }

  /** `texts` holds exactly the entries of `m`, printed. */
  ghost predicate Printed<K, V>(texts: map<string, string>, m: map<K, V>, key: K -> string, value: V -> string) {
    && (forall k {:trigger m[k]} :: k in m ==> key(k) in texts && texts[key(k)] == value(m[k]))
    && (forall t {:trigger texts[t]} :: t in texts ==> PrintsAKey(m, key, t))
  }

  ghost predicate PrintsAKey<K, V>(m: map<K, V>, key: K -> string, t: string) {
    exists k :: k in m && t == key(k)
  }

  // ----- What load accepts and produces

  predicate ReadableRecord(r: Record) { HashFromString(r.hash).Some? }

  predicate ReadableEntry<K, V>(texts: map<string, string>, key: string -> Option<K>, value: string -> Option<V>,
                                t: string)
    requires t in texts
  {
    key(t).Some? && value(texts[t]).Some?
  }

  ghost predicate ReadableMap<K, V>(texts: map<string, string>, key: string -> Option<K>, value: string -> Option<V>) {
    forall t {:trigger texts[t]} :: t in texts ==> ReadableEntry(texts, key, value, t)
  }

  /** Every text in the snapshot parses. */
  ghost predicate Readable(snap: Snapshot) {
    && HashFromString(snap.genesisHash).Some? && HashFromString(snap.currentTip).Some?
    && (forall i :: 0 <= i < |snap.blocks| ==> ReadableRecord(snap.blocks[i]))
    && ReadableMap(snap.heights, ParseUint64, HashFromString)
    && ReadableMap(snap.totalWork, HashFromString, BigIntFromString)
  }

  /** The block map the records build up, a later record replacing an earlier one of the same hash. */
  function BlocksOf(rs: seq<Record>): map<Hash, Block>
    requires forall i :: 0 <= i < |rs| ==> ReadableRecord(rs[i])
  {
    if rs == [] then map[]
    else
      assert ReadableRecord(rs[|rs| - 1]);
      BlocksOf(rs[..|rs| - 1])[HashFromString(rs[|rs| - 1].hash).value := rs[|rs| - 1].block]
  }

  ghost predicate ReadFrom<K, V>(texts: map<string, string>, key: string -> Option<K>, value: string -> Option<V>,
                                 k: K, v: V)
  {
    exists t :: t in texts && key(t) == Some(k) && value(texts[t]) == Some(v)
  }

  /** The map read from these entries, in whatever order they are visited. */
  ghost predicate Loaded<K, V>(texts: map<string, string>, m: map<K, V>, key: string -> Option<K>,
                               value: string -> Option<V>)
  {
    && (forall k {:trigger m[k]} :: k in m ==> ReadFrom(texts, key, value, k, m[k]))
    && (forall t {:trigger texts[t]} :: t in texts ==> key(t).Some? && key(t).value in m)
  }

  ghost predicate LoadsAs(snap: Snapshot, s: Chain) {
    && HashFromString(snap.genesisHash) == Some(s.genesis)
    && HashFromString(snap.currentTip) == Some(s.tip)
    && (forall i :: 0 <= i < |snap.blocks| ==> ReadableRecord(snap.blocks[i]))
    && s.blocks == BlocksOf(snap.blocks)
    && Loaded(snap.heights, s.heights, ParseUint64, HashFromString)
    && Loaded(snap.totalWork, s.work, HashFromString, BigIntFromString)
  }

  // ----- load inverts flush

  lemma HashTextInjective(a: Hash, b: Hash)
    requires HashText(a) == HashText(b)
    ensures a == b
  {
    HashRoundTrip(a);
    HashRoundTrip(b);
  }

  lemma {:induction false} BlocksRoundTrip(rs: seq<Record>, blocks: map<Hash, Block>)
    requires forall i :: 0 <= i < |rs| ==> IsRecord(blocks, rs[i])
    ensures forall i :: 0 <= i < |rs| ==> ReadableRecord(rs[i])
    ensures forall h {:trigger h in BlocksOf(rs)} :: h in BlocksOf(rs) ==> h in blocks && BlocksOf(rs)[h] == blocks[h]
    ensures forall h {:trigger HashText(h)} :: h in blocks && Record(HashText(h), blocks[h]) in rs ==> h in BlocksOf(rs)
  {
    if rs != [] {
      var n := |rs| - 1;
      assert rs == rs[..n] + [rs[n]];
      BlocksRoundTrip(rs[..n], blocks);
      assert IsRecord(blocks, rs[n]);
      var h :| h in blocks && rs[n] == Record(HashText(h), blocks[h]);
      HashRoundTrip(h);
      forall k | k in blocks && Record(HashText(k), blocks[k]) in rs
        ensures k in BlocksOf(rs)
      {
        if Record(HashText(k), blocks[k]) !in rs[..n] {
          HashTextInjective(k, h);
        }
      }
    }
  }

  lemma RecordsAreLoaded(rs: seq<Record>, blocks: map<Hash, Block>)
    requires forall i :: 0 <= i < |rs| ==> ReadableRecord(rs[i]) && IsRecord(blocks, rs[i])
    requires forall h {:trigger blocks[h]} :: h in blocks ==> Record(HashText(h), blocks[h]) in rs
    ensures BlocksOf(rs) == blocks
  {
    hide HashText;
    hide IsRecord;
    hide ReadableRecord;
    BlocksRoundTrip(rs, blocks);
    forall h | h in blocks
      ensures h in BlocksOf(rs)
    {
      assert Record(HashText(h), blocks[h]) in rs;
    }
  }

  /** Printing and reading back a map is lossless when printing its keys and values is. */
  lemma MapRoundTrip<K, V>(
      texts: map<string, string>, m: map<K, V>, printKey: K -> string, printValue: V -> string,
      readKey: string -> Option<K>, readValue: string -> Option<V>)
    requires Printed(texts, m, printKey, printValue)
    requires forall k {:trigger m[k]} :: k in m ==>
      readKey(printKey(k)) == Some(k) && readValue(printValue(m[k])) == Some(m[k])
    ensures ReadableMap(texts, readKey, readValue)
  {
    forall t | t in texts
      ensures ReadableEntry(texts, readKey, readValue, t)
    {
      assert PrintsAKey(m, printKey, t);
      var k :| k in m && t == printKey(k);
      assert texts[printKey(k)] == printValue(m[k]);
    }
  }

  lemma MapLoadsBack<K, V>(
      texts: map<string, string>, m: map<K, V>, printKey: K -> string, printValue: V -> string,
      readKey: string -> Option<K>, readValue: string -> Option<V>, loaded: map<K, V>)
    requires Printed(texts, m, printKey, printValue)
    requires forall k {:trigger m[k]} :: k in m ==>
      readKey(printKey(k)) == Some(k) && readValue(printValue(m[k])) == Some(m[k])
    requires Loaded(texts, loaded, readKey, readValue)
    ensures loaded == m
  {
    forall k | k in m
      ensures k in loaded
    {
      assert texts[printKey(k)] == printValue(m[k]);
    }
    forall k | k in loaded
      ensures k in m && loaded[k] == m[k]
    {
      assert ReadFrom(texts, readKey, readValue, k, loaded[k]);
      var t :| t in texts && readKey(t) == Some(k) && readValue(texts[t]) == Some(loaded[k]);
      assert PrintsAKey(m, printKey, t);
      var j :| j in m && t == printKey(j);
      assert texts[printKey(j)] == printValue(m[j]);
    }
  }

  lemma TextRoundTrips(s: Chain)
    ensures forall k {:trigger s.heights[k]} :: k in s.heights ==>
      ParseUint64(HeightText(k)) == Some(k) && HashFromString(HashText(s.heights[k])) == Some(s.heights[k])
    ensures forall h {:trigger s.work[h]} :: h in s.work ==>
      HashFromString(HashText(h)) == Some(h) && BigIntFromString(FormatInt(s.work[h])) == Some(s.work[h])
  {
    forall k | k in s.heights
      ensures ParseUint64(HeightText(k)) == Some(k) && HashFromString(HashText(s.heights[k])) == Some(s.heights[k])
    {
      HeightRoundTrip(k);
      HashRoundTrip(s.heights[k]);
    }
    forall h | h in s.work
      ensures HashFromString(HashText(h)) == Some(h) && BigIntFromString(FormatInt(s.work[h])) == Some(s.work[h])
    {
      HashRoundTrip(h);
      BigIntRoundTrip(s.work[h]);
    }
  }

  /** The snapshot of a chain is always readable. */
  lemma SnapshotIsReadable(snap: Snapshot, s: Chain)
    requires IsSnapshotOf(snap, s)
    ensures Readable(snap)
  {
    HashRoundTrip(s.genesis);
    HashRoundTrip(s.tip);
    BlocksRoundTrip(snap.blocks, s.blocks);
    TextRoundTrips(s);
    MapRoundTrip(snap.heights, s.heights, HeightText, HashText, ParseUint64, HashFromString);
    MapRoundTrip(snap.totalWork, s.work, HashText, FormatInt, HashFromString, BigIntFromString);
  }

  /** Whatever load makes of the snapshot of a chain is exactly that chain. */
  lemma LoadInvertsFlush(snap: Snapshot, s: Chain, loaded: Chain)
    requires IsSnapshotOf(snap, s) && LoadsAs(snap, loaded)
    ensures loaded == s
  {
    HashRoundTrip(s.genesis);
    HashRoundTrip(s.tip);
    BlocksRoundTrip(snap.blocks, s.blocks);
    forall h | h in s.blocks
      ensures h in loaded.blocks
    {
      assert Record(HashText(h), s.blocks[h]) in snap.blocks;
    }
    assert loaded.blocks == s.blocks;
    TextRoundTrips(s);
    MapLoadsBack(snap.heights, s.heights, HeightText, HashText, ParseUint64, HashFromString, loaded.heights);
    MapLoadsBack(snap.totalWork, s.work, HashText, FormatInt, HashFromString, BigIntFromString, loaded.work);
  }
}

/** Files as the store uses them: a snapshot is written aside and renamed over the old one. */
module DiskFiles {
  import opened Bytes
  import opened ChainState
  import opened Snapshots

  /** The main file; text that is not a snapshot is garbage, and reading an existing file may fail. */
  datatype FileContent = Missing | Unreadable | Empty | Garbage | Json(snapshot: Snapshot)

  datatype TmpFile = NoTmp | Torn | Whole(snapshot: Snapshot)

  datatype Disk = Disk(file: FileContent, tmp: TmpFile)

  /** Every state of the disk during one flush of `snap`: before, half written, written, renamed. */
  function FlushStates(d: Disk, snap: Snapshot): (states: seq<Disk>)
    ensures |states| == 4
  {
    [d, d.(tmp := Torn), d.(tmp := Whole(snap)), Disk(Json(snap), NoTmp)]
  }

  /** The disk holds this chain: opening it yields the chain and nothing else. */
  ghost predicate Holds(d: Disk, s: Chain) {
    match d.file
    case Missing => s == EMPTY_CHAIN
    case Empty => s == EMPTY_CHAIN
    case Unreadable => false
    case Garbage => false
    case Json(snap) => IsSnapshotOf(snap, s)
  }

  /** A flush that crashes or fails at any point leaves the old contents or the new, never a mixture. */
  lemma CrashLeavesOldOrNew(before: Disk, after: Disk, snap: Snapshot, s: Chain, t: Chain, i: nat)
    requires Holds(before, s) && FlushedTo(t, before, after, snap, i)
    ensures Holds(after, if i < 3 then s else t)
    ensures forall u :: Holds(after, u) ==> u == if i < 3 then s else t
  {
    forall u | Holds(after, u)
      ensures u == if i < 3 then s else t
    {
      HoldsOne(after, u, if i < 3 then s else t);
    }
  }

  /** A flush of chain `s` that got as far as state i. */
  ghost predicate FlushedTo(s: Chain, before: Disk, after: Disk, snap: Snapshot, i: nat) {
    i < 4 && IsSnapshotOf(snap, s) && after == FlushStates(before, snap)[i]
  }

  /** A disk holds at most one chain. */
  lemma HoldsOne(d: Disk, s: Chain, t: Chain)
    requires Holds(d, s) && Holds(d, t)
    ensures s == t
  {
    if d.file.Json? {
      SnapshotIsReadable(d.file.snapshot, s);
      SnapshotLoadsAs(d.file.snapshot, s);
      LoadInvertsFlush(d.file.snapshot, t, s);
    }
  }

  lemma SnapshotLoadsAs(snap: Snapshot, s: Chain)
    requires IsSnapshotOf(snap, s)
    ensures LoadsAs(snap, s)
  {
    hide Printed;
    hide Loaded;
    hide BlocksOf;
    hide IsRecord;
    SnapshotIsReadable(snap, s);
    Codec.HashRoundTrip(s.genesis);
    Codec.HashRoundTrip(s.tip);
    RecordsAreLoaded(snap.blocks, s.blocks);
    TextRoundTrips(s);
    PrintedIsLoaded(snap.heights, s.heights, HeightText, HashText, Codec.ParseUint64, Codec.HashFromString);
    PrintedIsLoaded(snap.totalWork, s.work, HashText, Codec.FormatInt, Codec.HashFromString, Codec.BigIntFromString);
  }

  lemma PrintedIsLoaded<K, V>(
      texts: map<string, string>, m: map<K, V>, printKey: K -> string, printValue: V -> string,
      readKey: string -> Option<K>, readValue: string -> Option<V>)
    requires Printed(texts, m, printKey, printValue)
    requires forall k {:trigger m[k]} :: k in m ==>
      readKey(printKey(k)) == Some(k) && readValue(printValue(m[k])) == Some(m[k])
    ensures Loaded(texts, m, readKey, readValue)
  {
    forall k | k in m
      ensures ReadFrom(texts, readKey, readValue, k, m[k])
    {
      assert texts[printKey(k)] == printValue(m[k]);
    }
    forall t | t in texts
      ensures readKey(t).Some? && readKey(t).value in m
    {
      assert PrintsAKey(m, printKey, t);
      var k :| k in m && t == printKey(k);
      assert m[k] == m[k];
    }
  }
}

/** The store whose every change is flushed before it returns. */
module DiskStores {
  import opened Bytes
  import opened Types
  import opened Work
  import opened Codec
  import opened ChainState
  import opened Snapshots
  import opened DiskFiles

  datatype OpenError = NoDatadir | NoDirectory | ReadFailed | BadSnapshot

  /** Inserts a text into a sorted list; the library sort, one element at a time. */
  function InsertSorted(x: string, xs: seq<string>): seq<string> {
    if xs == [] || StringLess(x, xs[0]) then [x] + xs else [xs[0]] + InsertSorted(x, xs[1..])
  }

  ghost predicate Ascending(xs: seq<string>) {
    forall i, j :: 0 <= i < j < |xs| ==> StringLess(xs[i], xs[j])
  }

  lemma {:induction false} StringLessIsTransitive(a: string, b: string, c: string)
    requires StringLess(a, b) && StringLess(b, c)
    ensures StringLess(a, c)
  {
    if a != [] && b != [] && c != [] && a[0] == b[0] && b[0] == c[0] {
      StringLessIsTransitive(a[1..], b[1..], c[1..]);
    }
  }

  lemma {:induction false} StringLessIsTotal(a: string, b: string)
    ensures a == b || StringLess(a, b) || StringLess(b, a)
  {
    if a != [] && b != [] && a[0] == b[0] {
      StringLessIsTotal(a[1..], b[1..]);
      assert a == [a[0]] + a[1..] && b == [b[0]] + b[1..];
    }
  }

  lemma {:induction false} InsertSortedKeepsOrder(x: string, xs: seq<string>)
    requires Ascending(xs) && x !in xs
    ensures Ascending(InsertSorted(x, xs))
    ensures forall y :: y in InsertSorted(x, xs) <==> y == x || y in xs
  {
    if xs != [] {
      if StringLess(x, xs[0]) {
        forall i | 0 <= i < |xs|
          ensures StringLess(x, xs[i])
        {
          if i > 0 {
            StringLessIsTransitive(x, xs[0], xs[i]);
          }
        }
      } else {
        StringLessIsTotal(x, xs[0]);
        var tail := InsertSorted(x, xs[1..]);
        assert forall i :: 0 <= i < |xs[1..]| ==> xs[1..][i] == xs[i + 1];
        InsertSortedKeepsOrder(x, xs[1..]);
        var all := [xs[0]] + tail;
        assert xs == [xs[0]] + xs[1..];
        forall i, j | 0 <= i < j < |all|
          ensures StringLess(all[i], all[j])
        {
          assert all[j] == tail[j - 1];
          if i == 0 {
            assert tail[j - 1] in tail;
          }
        }
      }
    }
  }

  /** Prints a map, visiting its keys in an arbitrary order. */
  method PrintMap<K(==), V>(m: map<K, V>, key: K -> string, value: V -> string) returns (texts: map<string, string>)
    requires forall a, b {:trigger key(a), key(b)} :: a in m && b in m && key(a) == key(b) ==> a == b
    ensures Printed(texts, m, key, value)
  {
    texts := map[];
    var rest := m.Keys;
    ghost var done: map<K, V> := map[];
    while rest != {}
      invariant rest <= m.Keys && done.Keys == m.Keys - rest
      invariant forall k {:trigger done[k]} :: k in done ==> done[k] == m[k]
      invariant Printed(texts, done, key, value)
      decreases |rest|
    {
      var k :| k in rest;
      ghost var before, beforeTexts := done, texts;
      texts := texts[key(k) := value(m[k])];
      done := done[k := m[k]];
      rest := rest - {k};
      PrintedGrows(beforeTexts, before, m, key, value, k);
    }
    assert done == m;
  }

  lemma PrintedGrows<K, V>(texts: map<string, string>, done: map<K, V>, m: map<K, V>, key: K -> string,
                           value: V -> string, k: K)
    requires Printed(texts, done, key, value) && k in m && k !in done && done.Keys <= m.Keys
    requires forall a, b {:trigger key(a), key(b)} :: a in m && b in m && key(a) == key(b) ==> a == b
    ensures Printed(texts[key(k) := value(m[k])], done[k := m[k]], key, value)
  {
    var texts', done' := texts[key(k) := value(m[k])], done[k := m[k]];
    forall j | j in done'
      ensures key(j) in texts' && texts'[key(j)] == value(done'[j])
    {
      if j != k {
        assert texts[key(j)] == value(done[j]);
      }
    }
    forall t | t in texts'
      ensures PrintsAKey(done', key, t)
    {
      if t != key(k) {
        assert PrintsAKey(done, key, t);
        var j :| j in done && t == key(j);
        assert j in done';
      } else {
        assert k in done';
      }
    }
  }

  /** Reads a map back, visiting its entries in an arbitrary order and stopping at the first bad one. */
  method ReadMap<K(==), V>(texts: map<string, string>, key: string -> Option<K>, value: string -> Option<V>)
    returns (r: Result<map<K, V>, OpenError>)
    ensures r.Ok? <==> ReadableMap(texts, key, value)
    ensures r.Ok? ==> Loaded(texts, r.value, key, value)
  {
    var m: map<K, V> := map[];
    var rest := texts.Keys;
    while rest != {}
      invariant rest <= texts.Keys
      invariant forall t {:trigger texts[t]} :: t in texts && t !in rest ==>
        ReadableEntry(texts, key, value, t) && key(t).value in m
      invariant forall k {:trigger m[k]} :: k in m ==> ReadFrom(texts, key, value, k, m[k])
      decreases |rest|
    {
      var t :| t in rest;
      if key(t).None? || value(texts[t]).None? {
        assert !ReadableEntry(texts, key, value, t);
        assert texts[t] == texts[t];
        return Err(BadSnapshot);
      }
      m := m[key(t).value := value(texts[t]).value];
      rest := rest - {t};
    }
    return Ok(m);
  }

  /** Builds the snapshot of a chain; the result does not depend on any map iteration order. */
  method BuildSnapshot(s: Chain) returns (snap: Snapshot)
    ensures IsSnapshotOf(snap, s)
  {
    hide Printed;
    hide PrintsAKey;
    hide HashText;
    hide HeightText;
    hide FormatInt;
    hide StringLess;
    hide IsRecord;
    hide InsertSorted;
    var hashes: seq<string> := [];
    var rest := s.blocks.Keys;
    while rest != {}
      invariant rest <= s.blocks.Keys && Ascending(hashes)
      invariant forall h :: h in s.blocks && h !in rest <==> h in s.blocks && HashText(h) in hashes
      invariant forall i :: 0 <= i < |hashes| ==> PrintsAKey(s.blocks, HashText, hashes[i])
      decreases |rest|
    {
      var h :| h in rest;
      InsertSortedKeepsOrder(HashText(h), hashes);
      ghost var before := hashes;
      hashes := InsertSorted(HashText(h), hashes);
      rest := rest - {h};
      SortedStepKeepsKeys(s.blocks, before, hashes, h);
    }
    var records := ReadRecords(s.blocks, hashes);
    AllTextsInjective(s);
    var heights := PrintMap(s.heights, HeightText, HashText);
    var totalWork := PrintMap(s.work, HashText, FormatInt);
    snap := Snapshot(HashText(s.genesis), HashText(s.tip), records, heights, totalWork);
  }

  lemma SortedStepKeepsKeys(blocks: map<Hash, Block>, before: seq<string>, after: seq<string>, h: Hash)
    requires h in blocks && forall y :: y in after <==> y == HashText(h) || y in before
    requires forall i :: 0 <= i < |before| ==> PrintsAKey(blocks, HashText, before[i])
    ensures forall i :: 0 <= i < |after| ==> PrintsAKey(blocks, HashText, after[i])
    ensures forall k :: k in blocks && k != h ==> (HashText(k) in after <==> HashText(k) in before)
  {
    forall i | 0 <= i < |after|
      ensures PrintsAKey(blocks, HashText, after[i])
    {
      assert after[i] in after;
    }
    forall k | k in blocks && k != h && HashText(k) == HashText(h)
      ensures false
    {
      HashTextInjective(k, h);
    }
  }

  lemma AllTextsInjective(s: Chain)
    ensures forall a, b {:trigger HeightText(a), HeightText(b)} ::
      a in s.heights && b in s.heights && HeightText(a) == HeightText(b) ==> a == b
    ensures forall a, b {:trigger HashText(a), HashText(b)} ::
      a in s.work && b in s.work && HashText(a) == HashText(b) ==> a == b
  {
    forall a, b | a in s.heights && b in s.heights && HeightText(a) == HeightText(b)
      ensures a == b
    {
      HeightRoundTrip(a);
      HeightRoundTrip(b);
    }
    forall a, b | a in s.work && b in s.work && HashText(a) == HashText(b)
      ensures a == b
    {
      HashTextInjective(a, b);
    }
  }

  /** One record per sorted hash text; each text names exactly one stored block. */
  method ReadRecords(blocks: map<Hash, Block>, hashes: seq<string>) returns (records: seq<Record>)
    requires Ascending(hashes)
    requires forall i :: 0 <= i < |hashes| ==> PrintsAKey(blocks, HashText, hashes[i])
    requires forall h :: h in blocks ==> HashText(h) in hashes
    ensures StrictlySorted(records) && forall i :: 0 <= i < |records| ==> IsRecord(blocks, records[i])
    ensures forall h {:trigger blocks[h]} :: h in blocks ==> Record(HashText(h), blocks[h]) in records
  {
    hide StringLess;
    hide HashText;
    hide HashFromString;
    hide IsRecord;
    hide PrintsAKey;
    records := [];
    for n := 0 to |hashes|
      invariant |records| == n
      invariant forall i :: 0 <= i < n ==> records[i].hash == hashes[i] && IsRecord(blocks, records[i])
    {
      NamesABlock(blocks, hashes[n]);
      var hash := HashFromString(hashes[n]);
      records := records + [Record(hashes[n], blocks[hash.value])];
    }
    EveryBlockIsRecorded(blocks, hashes, records);
  }

  lemma NamesABlock(blocks: map<Hash, Block>, text: string)
    requires PrintsAKey(blocks, HashText, text)
    ensures HashFromString(text).Some? && HashFromString(text).value in blocks
    ensures IsRecord(blocks, Record(text, blocks[HashFromString(text).value]))
  {
    var h :| h in blocks && text == HashText(h);
    HashRoundTrip(h);
  }

  lemma EveryBlockIsRecorded(blocks: map<Hash, Block>, hashes: seq<string>, records: seq<Record>)
    requires |records| == |hashes| && forall h :: h in blocks ==> HashText(h) in hashes
    requires forall i :: 0 <= i < |records| ==> records[i].hash == hashes[i] && IsRecord(blocks, records[i])
    ensures forall h {:trigger blocks[h]} :: h in blocks ==> Record(HashText(h), blocks[h]) in records
  {
    hide HashText;
    forall h | h in blocks
      ensures Record(HashText(h), blocks[h]) in records
    {
      var i :| 0 <= i < |hashes| && hashes[i] == HashText(h);
      assert IsRecord(blocks, records[i]);
      var k :| k in blocks && records[i] == Record(HashText(k), blocks[k]);
      HashTextInjective(k, h);
    }
  }

  /** load makes something of this file. */
  ghost predicate Loadable(file: FileContent) {
    file.Missing? || file.Empty? || (file.Json? && Readable(file.snapshot))
  }

  /** load: everything parses and is taken over, or the first bad text stops it. */
  method Load(file: FileContent) returns (r: Result<Chain, OpenError>)
    ensures file.Missing? || file.Empty? ==> r == Ok(EMPTY_CHAIN)
    ensures r == Err(ReadFailed) <==> file.Unreadable?
    ensures r == Err(BadSnapshot) <==> file.Garbage? || (file.Json? && !Readable(file.snapshot))
    ensures r.Ok? <==> Loadable(file)
    ensures file.Json? && r.Ok? ==> LoadsAs(file.snapshot, r.value)
  {
    hide Loaded;
    hide ReadableMap;
    hide HashFromString;
    // An empty file stands for the empty snapshot, over which the loops below do nothing.
    if file.Missing? || file.Empty? {
      return Ok(EMPTY_CHAIN);
    }
    if file.Unreadable? {
      return Err(ReadFailed);
    }
    if file.Garbage? {
      return Err(BadSnapshot);
    }
    var snap := file.snapshot;
    var genesis, tip := HashFromString(snap.genesisHash), HashFromString(snap.currentTip);
    if genesis.None? || tip.None? {
      return Err(BadSnapshot);
    }
    var blocks: map<Hash, Block> := map[];
    for i := 0 to |snap.blocks|
      invariant forall j :: 0 <= j < i ==> ReadableRecord(snap.blocks[j])
      invariant blocks == BlocksOf(snap.blocks[..i])
    {
      var h := HashFromString(snap.blocks[i].hash);
      if h.None? {
        assert !ReadableRecord(snap.blocks[i]);
        return Err(BadSnapshot);
      }
      assert snap.blocks[..i + 1][..i] == snap.blocks[..i];
      blocks := blocks[h.value := snap.blocks[i].block];
    }
    assert snap.blocks[..|snap.blocks|] == snap.blocks;
    var heights := ReadMap(snap.heights, ParseUint64, HashFromString);
    if heights.Err? {
      return Err(BadSnapshot);
    }
    var work := ReadMap(snap.totalWork, HashFromString, BigIntFromString);
    if work.Err? {
      return Err(BadSnapshot);
    }
    return Ok(Chain(genesis.value, tip.value, blocks, heights.value, work.value));
  }

  class DiskStore {
    const blockHash: Header -> Hash
    var genesisHash: Hash
    var currentTip: Hash
    var blocks: map<Hash, Block>
    var heights: map<uint64, Hash>
    var totalWork: map<Hash, int>
    var disk: Disk

    ghost function Contents(): Chain
      reads this
    {
      Chain(genesisHash, currentTip, blocks, heights, totalWork)
    }

    /** The disk holds exactly what memory holds. */
    ghost predicate Valid()
      reads this
    {
      Holds(disk, Contents())
    }

    constructor Restore(hash: Header -> Hash, s: Chain, d: Disk)
      ensures Contents() == s && disk == d && blockHash == hash
    {
      blockHash := hash;
      genesisHash, currentTip := s.genesis, s.tip;
      blocks, heights, totalWork := s.blocks, s.heights, s.work;
      disk := d;
    }

    /**
     * flushLocked. Creating, writing or renaming the file may fail; the flush then stops at one of the states it
     * passes through, and the main file is what it was.
     */
    method Flush() returns (ok: bool)
      modifies this`disk
      ensures ok ==> Valid()
      ensures exists snap, i :: FlushedTo(Contents(), old(disk), disk, snap, i) && (ok <==> i == 3)
    {
      var snap := BuildSnapshot(Chain(genesisHash, currentTip, blocks, heights, totalWork));
      ghost var before := disk;
      if * {
        assert FlushedTo(Contents(), before, disk, snap, 0);
        return false;
      }
      disk := disk.(tmp := Torn);
      if * {
        assert FlushedTo(Contents(), before, disk, snap, 1);
        return false;
      }
      disk := disk.(tmp := Whole(snap));
      if * {
        assert FlushedTo(Contents(), before, disk, snap, 2);
        return false;
      }
      disk := Disk(Json(snap), NoTmp);
      assert FlushedTo(Contents(), before, disk, snap, 3);
      return true;
    }

    /** StoreBlock: memory takes the block even when the flush fails. */
    method StoreBlock(block: Block, work: int) returns (ok: bool)
      modifies this
      ensures Contents() == ChainState.StoreBlock(blockHash, old(Contents()), block, work)
      ensures ok ==> Valid()
      ensures exists snap, i :: FlushedTo(Contents(), old(disk), disk, snap, i) && (ok <==> i == 3)
    {
      var hash := blockHash(block.header);
      blocks := blocks[hash := block];
      heights := heights[block.header.height := hash];
      totalWork := totalWork[hash := work];
      if block.header.height == 0 && genesisHash == ZERO_HASH {
        genesisHash := hash;
      }
      if currentTip == ZERO_HASH {
        currentTip := hash;
      }
      ghost var stored := Contents();
      assert stored == ChainState.StoreBlock(blockHash, old(Contents()), block, work);
      ok := Flush();
      assert Contents() == stored;
    }

    /** SetCurrentTip: an unknown hash is refused before anything changes. */
    method SetCurrentTip(hash: Hash) returns (known: bool, ok: bool)
      modifies this`currentTip, this`disk
      ensures known <==> hash in blocks
      ensures Contents() == if known then old(Contents()).(tip := hash) else old(Contents())
      ensures !known ==> !ok && disk == old(disk)
      ensures ok ==> Valid()
      ensures known ==> exists snap, i :: FlushedTo(Contents(), old(disk), disk, snap, i) && (ok <==> i == 3)
    {
      if hash !in blocks {
        return false, false;
      }
      currentTip := hash;
      known := true;
      ok := Flush();
    }
  }

  /**
   * NewDiskStore; `directoryMade` says whether the data directory exists or could be created.  Opening a disk that
   * holds a chain yields that chain; every failure is told by its cause.
   */
  method NewDiskStore(hash: Header -> Hash, datadir: string, directoryMade: bool, d: Disk)
    returns (r: Result<DiskStore, OpenError>)
    ensures r.Ok? <==> datadir != "" && directoryMade && Loadable(d.file)
    ensures r.Err? ==>
      r.error == if datadir == "" then NoDatadir
                 else if !directoryMade then NoDirectory
                 else if d.file.Unreadable? then ReadFailed
                 else BadSnapshot
    ensures r.Ok? ==> fresh(r.value) && r.value.blockHash == hash && r.value.disk == d
    ensures r.Ok? ==>
      if d.file.Json? then LoadsAs(d.file.snapshot, r.value.Contents()) else r.value.Contents() == EMPTY_CHAIN
    ensures forall s :: Holds(d, s) && datadir != "" && directoryMade ==>
      r.Ok? && r.value.Contents() == s && r.value.Valid()
  {
    if datadir == "" {
      return Err(NoDatadir);
    }
    if !directoryMade {
      return Err(NoDirectory);
    }
    var loaded := Load(d.file);
    forall s | Holds(d, s)
      ensures loaded == Ok(s)
    {
      if d.file.Json? {
        SnapshotIsReadable(d.file.snapshot, s);
        LoadInvertsFlush(d.file.snapshot, s, loaded.value);
      }
    }
    if loaded.Err? {
      return Err(loaded.error);
    }
    var store := new DiskStore.Restore(hash, loaded.value, d);
    return Ok(store);
  }
}
