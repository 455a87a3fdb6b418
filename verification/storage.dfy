/** delta/static/app/lib/storage.js: the browser page keeps the files it
    has been sent in localStorage["delta"], grouped by working directory. A
    group is stamped with "_created_at" when it is started, and a file that
    arrives more than a second after the stamp starts a new group. The slot
    is modelled in memory and the clock is the parameter `now`
    (milliseconds). */
module Storage {
  import opened Wrappers
  import opened Assoc
  import opened Seqs

  const CreatedAt := "_created_at"
  /** Milliseconds a group stays open for further files. */
  const Window := 1000

  datatype Change = Modified | Added | Deleted

  /** delta/metadata.go's Metadata, as the page receives it. */
  datatype Metadata = Metadata(from: string, to: string, merged: string, dir: string,
                               change: Change, hash: string, dirHash: string, timestamp: int)

  /** A group entry: the creation stamp or a file's metadata. */
  datatype Value = Stamp(ms: int) | File(meta: Metadata)

  type Group = Assoc<Value>
  type Store = Assoc<Group>

  /** What localStorage["delta"] parses to: nothing stored, JSON that is not
      an object (null, a number, a string, a boolean), or an object holding
      one group per working directory. */
  datatype Slot = Absent | NotObject | Object(store: Store)

  /** Every object in the slot has distinct keys, as JSON objects do. */
  predicate Valid(slot: Slot)
  {
    slot.Object? ==>
      Unique(slot.store) && forall i :: 0 <= i < |slot.store| ==> Unique(slot.store[i].1)
  }

  /** getGlobalStore: after the call the slot always holds an object, and
      that object is what the caller gets; a stored object comes back as it
      is, and anything else is replaced by an empty one. */
  function GetGlobalStore(slot: Slot): (r: (Slot, Store))
    ensures r.0 == Object(r.1)
    ensures slot.Object? ==> r.1 == slot.store
    ensures !slot.Object? ==> r.1 == []
    ensures Valid(slot) ==> Valid(r.0)
  {
    if slot.Object? then (slot, slot.store) else (Object([]), [])
  }

  /** The store as the next operation sees it. */
  function StoreOf(slot: Slot): Store
  {
    GetGlobalStore(slot).1
  }

  /** getStore: the directory's group, or None (undefined) when there is
      none. The store is written back as read: no directory is created. */
  function GetStore(slot: Slot, dir: string): (r: (Slot, Option<Group>))
    ensures r.0 == Object(StoreOf(slot))
    ensures r.1.Some? <==> dir in Keys(StoreOf(slot))
    ensures r.1.Some? ==> exists i :: 0 <= i < |StoreOf(slot)| && StoreOf(slot)[i] == (dir, r.1.value)
  {
    var (written, gs) := GetGlobalStore(slot);
    if dir !in Keys(gs) then (Object(gs), None) else (written, Get(gs, dir))
  }

  /** Reading a group a second time sees what the first read left. */
  lemma GetStoreTwice(slot: Slot, dir: string)
    ensures GetStore(GetStore(slot, dir).0, dir) == GetStore(slot, dir)
  {
  }

  /** `now - group._created_at > 1000`. A missing or non-numeric stamp makes
      the difference NaN, which is not greater than anything, so such a
      group never expires. */
  predicate Expired(g: Group, now: int)
  {
    var v := Get(g, CreatedAt);
    v.Some? && v.value.Stamp? && now - v.value.ms > Window
  }

  function Fresh(now: int): Group
  {
    [(CreatedAt, Stamp(now))]
  }

  /** updateStore: the file is stored under its path in the directory's
      group, a new group (stamped now) is started when there is none or the
      old one has expired, and no other directory changes. */
  function UpdateStore(slot: Slot, dir: string, path: string, meta: Metadata, now: int): (r: Slot)
    ensures r.Object? && Get(r.store, dir).Some?
    ensures Get(Get(r.store, dir).value, path) == Some(File(meta))
    ensures forall d :: d != dir ==> Get(r.store, d) == Get(StoreOf(slot), d)
  {
    var gs := StoreOf(slot);
    var prev := Get(gs, dir);
    var g := if prev.None? || Expired(prev.value, now) then Fresh(now) else prev.value;
    Object(Put(gs, dir, Put(g, path, File(meta))))
  }

  /** While the directory's group is open, every other file in it is kept. */
  lemma UpdateStoreKeeps(slot: Slot, dir: string, path: string, meta: Metadata, now: int)
    requires Get(StoreOf(slot), dir).Some? && !Expired(Get(StoreOf(slot), dir).value, now)
    ensures var g := Get(StoreOf(slot), dir).value;
      var g' := Get(UpdateStore(slot, dir, path, meta, now).store, dir).value;
      Keys(g) <= Keys(g') && forall p :: p != path ==> Get(g', p) == Get(g, p)
  {
    var g := Get(StoreOf(slot), dir).value;
    assert Get(UpdateStore(slot, dir, path, meta, now).store, dir).value == Put(g, path, File(meta));
  }

  /** A directory without an open group gets a new one holding only the new
      stamp and the new file. */
  lemma UpdateStoreRestarts(slot: Slot, dir: string, path: string, meta: Metadata, now: int)
    requires Get(StoreOf(slot), dir).None? || Expired(Get(StoreOf(slot), dir).value, now)
    requires path != CreatedAt
    ensures var g' := Get(UpdateStore(slot, dir, path, meta, now).store, dir).value;
      Keys(g') == [CreatedAt, path] && Get(g', CreatedAt) == Some(Stamp(now))
  {
    var f := Fresh(now);
    var g' := Put(f, path, File(meta));
    assert Get(UpdateStore(slot, dir, path, meta, now).store, dir).value == g';
    assert Keys(f) == [CreatedAt];
    assert Get(f, CreatedAt) == Some(Stamp(now));
    assert path !in Keys(f);
    TwoJoin(Keys(f), [path], CreatedAt, path);
  }

  /** Updating keeps every object's keys distinct. */
  lemma UpdateStoreValid(slot: Slot, dir: string, path: string, meta: Metadata, now: int)
    requires Valid(slot)
    ensures Valid(UpdateStore(slot, dir, path, meta, now))
  {
    var gs := StoreOf(slot);
    var prev := Get(gs, dir);
    var g := if prev.None? || Expired(prev.value, now) then Fresh(now) else prev.value;
    var g' := Put(g, path, File(meta));
    var r := UpdateStore(slot, dir, path, meta, now);
    assert r.store == Put(gs, dir, g');
    assert Unique(g) by {
      if prev.Some? && !Expired(prev.value, now) {
        var i :| 0 <= i < |gs| && gs[i] == (dir, prev.value);
      }
    }
    assert Unique(g');
    PutFrom(gs, dir, g');
    ValidPut(gs, dir, g', r.store);
  }

  lemma ValidPut(gs: Store, dir: string, g': Group, s: Store)
    requires forall i :: 0 <= i < |gs| ==> Unique(gs[i].1)
    requires Unique(g') && s == Put(gs, dir, g')
    requires forall e :: e in s ==> e == (dir, g') || e in gs
    ensures forall i :: 0 <= i < |s| ==> Unique(s[i].1)
  {
    forall i | 0 <= i < |s| ensures Unique(s[i].1) {
      assert s[i] in s;
    }
  }

  /** size(dir): the number of keys in the directory's group, the stamp
      included. Object.keys(undefined) throws, so an absent directory gives
      None. */
  function Size(slot: Slot, dir: string): (r: (Slot, Option<nat>))
    ensures r.0 == Object(StoreOf(slot))
    ensures r.1.Some? <==> dir in Keys(StoreOf(slot))
    ensures r.1.Some? ==> r.1.value == |Keys(Get(StoreOf(slot), dir).value)|
  {
    var (written, gs) := GetGlobalStore(slot);
    match Get(gs, dir)
    case None => (written, None)
    case Some(g) => (written, Some(|g|))
  }

  /** The group's files: every entry but the stamp, in key order. */
  function Files(g: Group): (r: Group)
    ensures forall e :: e in r <==> e in g && e.0 != CreatedAt
    ensures |r| <= |g|
  {
    if g == [] then []
    else if g[0].0 == CreatedAt then Files(g[1..])
    else [g[0]] + Files(g[1..])
  }

  /** With distinct keys, the stamp is the only key Files leaves out. */
  lemma {:induction false} FilesCount(g: Group)
    requires Unique(g)
    ensures |Files(g)| + (if CreatedAt in Keys(g) then 1 else 0) == |g|
  {
    if g != [] {
      assert Unique(g[1..]) by {
        forall i, j | 0 <= i < j < |g[1..]| ensures g[1..][i].0 != g[1..][j].0 {
          assert g[1..][i] == g[i + 1] && g[1..][j] == g[j + 1];
        }
      }
      FilesCount(g[1..]);
      assert Keys(g) == [g[0].0] + Keys(g[1..]);
      if g[0].0 == CreatedAt {
        assert CreatedAt !in Keys(g[1..]) by {
          forall i | 0 <= i < |g[1..]| ensures Keys(g[1..])[i] != CreatedAt {
            assert g[1..][i] == g[i + 1];
          }
        }
      }
    }
  }

  /** The for-in loop of collect over one group. */
  function CollectGroup<R>(g: Group, f: (string, Value) -> R): (r: seq<R>)
    ensures |r| == |Files(g)|
    ensures forall i :: 0 <= i < |r| ==> r[i] == f(Files(g)[i].0, Files(g)[i].1)
  {
    if g == [] then []
    else if g[0].0 == CreatedAt then CollectGroup(g[1..], f)
    else [f(g[0].0, g[0].1)] + CollectGroup(g[1..], f)
  }

  /** collect(dir, callback): one callback result per file of the group, in
      key order, the stamp skipped; nothing for an absent directory. */
  function Collect<R>(slot: Slot, dir: string, f: (string, Value) -> R): (r: (Slot, seq<R>))
    ensures r.0 == Object(StoreOf(slot))
    ensures dir !in Keys(StoreOf(slot)) ==> r.1 == []
    ensures dir in Keys(StoreOf(slot)) ==>
      var fs := Files(Get(StoreOf(slot), dir).value);
      |r.1| == |fs| && forall i :: 0 <= i < |fs| ==> r.1[i] == f(fs[i].0, fs[i].1)
  {
    var (written, g) := GetStore(slot, dir);
    match g
    case None => (written, [])
    case Some(g) => (written, CollectGroup(g, f))
  }

  /** addFile(m): the file is stored under its merged path in its
      directory's group. */
  function AddFile(slot: Slot, m: Metadata, now: int): (r: Slot)
    ensures r.Object? && Get(r.store, m.dir).Some?
    ensures Get(Get(r.store, m.dir).value, m.merged) == Some(File(m))
    ensures forall d :: d != m.dir ==> Get(r.store, d) == Get(StoreOf(slot), d)
  {
    UpdateStore(slot, m.dir, m.merged, m, now)
  }

  /** size counts the stamp and collect does not: in a group that has its
      stamp, size is one more than the number of results collect gives. */
  lemma SizeCountsStamp<R>(slot: Slot, dir: string, f: (string, Value) -> R)
    requires Valid(slot)
    requires Get(StoreOf(slot), dir).Some? && CreatedAt in Keys(Get(StoreOf(slot), dir).value)
    ensures Size(slot, dir).1 == Some(|Collect(slot, dir, f).1| + 1)
  {
    var gs := StoreOf(slot);
    var g := Get(gs, dir).value;
    var i :| 0 <= i < |gs| && gs[i] == (dir, g);
    assert Unique(g);
    FilesCount(g);
  }

  /** The window boundary: at exactly 1000 ms after the stamp the group is
      kept with every other file in it; one millisecond later it is
      replaced by a group holding only the new stamp and the new file. */
  lemma WindowBoundary(slot: Slot, m: Metadata, t: int)
    requires Get(StoreOf(slot), m.dir).Some?
    requires Get(Get(StoreOf(slot), m.dir).value, CreatedAt) == Some(Stamp(t))
    requires m.merged != CreatedAt
    ensures var g := Get(StoreOf(slot), m.dir).value;
      var kept := Get(AddFile(slot, m, t + Window).store, m.dir).value;
      forall p :: p != m.merged ==> Get(kept, p) == Get(g, p)
    ensures var restarted := Get(AddFile(slot, m, t + Window + 1).store, m.dir).value;
      Keys(restarted) == [CreatedAt, m.merged] && Get(restarted, CreatedAt) == Some(Stamp(t + Window + 1))
  {
    UpdateStoreKeeps(slot, m.dir, m.merged, m, t + Window);
    UpdateStoreRestarts(slot, m.dir, m.merged, m, t + Window + 1);
  }

  /** Adding a file again while its group is open overwrites the entry and
      leaves the group's size unchanged. */
  lemma ReAddKeepsSize(slot: Slot, m: Metadata, now: int)
    requires Get(StoreOf(slot), m.dir).Some?
    requires !Expired(Get(StoreOf(slot), m.dir).value, now)
    requires m.merged in Keys(Get(StoreOf(slot), m.dir).value)
    ensures Size(AddFile(slot, m, now), m.dir).1 == Size(slot, m.dir).1
    ensures Get(Get(AddFile(slot, m, now).store, m.dir).value, m.merged) == Some(File(m))
  {
  }

  /** The files added one after another, the k-th at time nows[k]. */
  function AddAll(slot: Slot, ms: seq<Metadata>, nows: seq<int>): Slot
    requires |ms| == |nows|
    decreases |ms|
  {
    if ms == [] then slot else AddAll(AddFile(slot, ms[0], nows[0]), ms[1..], nows[1..])
  }

  function Paths(ms: seq<Metadata>): seq<string>
  {
    if ms == [] then [] else [ms[0].merged] + Paths(ms[1..])
  }

  lemma {:induction false} AddAllValid(slot: Slot, ms: seq<Metadata>, nows: seq<int>)
    requires |ms| == |nows| && Valid(slot)
    ensures Valid(AddAll(slot, ms, nows))
    decreases |ms|
  {
    if ms != [] {
      UpdateStoreValid(slot, ms[0].dir, ms[0].merged, ms[0], nows[0]);
      AddAllValid(AddFile(slot, ms[0], nows[0]), ms[1..], nows[1..]);
    }
  }

  /** A file with a new path added to an open group stamped t0 is appended
      to its keys, and the stamp stays. */
  lemma AddOpen(slot: Slot, m: Metadata, now: int, t0: int)
    requires slot.Object? && Get(slot.store, m.dir).Some?
    requires Get(Get(slot.store, m.dir).value, CreatedAt) == Some(Stamp(t0)) && now - t0 <= Window
    requires m.merged != CreatedAt && m.merged !in Keys(Get(slot.store, m.dir).value)
    ensures var g := Get(slot.store, m.dir).value;
      var g' := Get(AddFile(slot, m, now).store, m.dir).value;
      Get(g', CreatedAt) == Some(Stamp(t0)) && Keys(g') == Keys(g) + [m.merged]
  {
    var g := Get(slot.store, m.dir).value;
    assert !Expired(g, now);
    assert Get(AddFile(slot, m, now).store, m.dir).value == Put(g, m.merged, File(m));
  }

  /** The directory's group exists, carries the stamp t0 and has exactly
      the keys `keys`, in that order. */
  predicate OpenWith(slot: Slot, dir: string, t0: int, keys: seq<string>)
  {
    slot.Object? && Get(slot.store, dir).Some? &&
    Get(Get(slot.store, dir).value, CreatedAt) == Some(Stamp(t0)) &&
    Keys(Get(slot.store, dir).value) == keys
  }

  /** Files for directory dir with distinct paths not among `keys`, each
      arriving no more than a second after t0. */
  predicate Fits(ms: seq<Metadata>, nows: seq<int>, dir: string, t0: int, keys: seq<string>)
  {
    |ms| == |nows| &&
    (forall k :: 0 <= k < |ms| ==> ms[k].dir == dir && ms[k].merged !in keys) &&
    (forall k :: 0 <= k < |nows| ==> nows[k] - t0 <= Window) &&
    (forall k, l :: 0 <= k < l < |ms| ==> ms[k].merged != ms[l].merged)
  }

  lemma GrowStep(slot: Slot, dir: string, ms: seq<Metadata>, nows: seq<int>, t0: int, keys: seq<string>)
    requires OpenWith(slot, dir, t0, keys) && Fits(ms, nows, dir, t0, keys) && ms != []
    requires CreatedAt in keys
    ensures OpenWith(AddFile(slot, ms[0], nows[0]), dir, t0, keys + [ms[0].merged])
    ensures Fits(ms[1..], nows[1..], dir, t0, keys + [ms[0].merged])
  {
    var m := ms[0];
    assert m.dir == dir && m.merged !in keys && nows[0] - t0 <= Window;
    AddOpen(slot, m, nows[0], t0);
    FitsTail(ms, nows, dir, t0, keys);
  }

  lemma FitsTail(ms: seq<Metadata>, nows: seq<int>, dir: string, t0: int, keys: seq<string>)
    requires Fits(ms, nows, dir, t0, keys) && ms != []
    ensures Fits(ms[1..], nows[1..], dir, t0, keys + [ms[0].merged])
  {
    forall k | 0 <= k < |ms[1..]|
      ensures ms[1..][k].dir == dir && ms[1..][k].merged !in keys + [ms[0].merged]
    {
      assert ms[1..][k] == ms[k + 1];
    }
    forall k | 0 <= k < |nows[1..]| ensures nows[1..][k] - t0 <= Window {
      assert nows[1..][k] == nows[k + 1];
    }
    forall k, l | 0 <= k < l < |ms[1..]| ensures ms[1..][k].merged != ms[1..][l].merged {
      assert ms[1..][k] == ms[k + 1] && ms[1..][l] == ms[l + 1];
    }
  }

  /** Files with new paths added into an open group stamped t0, each no more
      than a second after t0, are appended to its keys and keep its stamp. */
  lemma {:induction false} AddAllGrows(slot: Slot, dir: string, ms: seq<Metadata>, nows: seq<int>,
                                       t0: int, keys: seq<string>)
    requires OpenWith(slot, dir, t0, keys) && Fits(ms, nows, dir, t0, keys)
    requires CreatedAt in keys
    ensures OpenWith(AddAll(slot, ms, nows), dir, t0, keys + Paths(ms))
    decreases |ms|
  {
    if ms == [] {
      assert keys + Paths(ms) == keys;
    } else {
      var next := AddFile(slot, ms[0], nows[0]);
      GrowStep(slot, dir, ms, nows, t0, keys);
      AddAllGrows(next, dir, ms[1..], nows[1..], t0, keys + [ms[0].merged]);
      assert AddAll(slot, ms, nows) == AddAll(next, ms[1..], nows[1..]);
      PathsCons(keys, ms);
    }
  }

  lemma PathsCons(keys: seq<string>, ms: seq<Metadata>)
    requires ms != []
    ensures keys + [ms[0].merged] + Paths(ms[1..]) == keys + Paths(ms)
  {
    assert Paths(ms) == [ms[0].merged] + Paths(ms[1..]);
  }

  /** k files with distinct paths added to a directory that had no group,
      each no more than a second after the first: the group has k + 1 keys
      and collect gives k results. */
  lemma FilesInOneWindow<R>(slot: Slot, ms: seq<Metadata>, nows: seq<int>, f: (string, Value) -> R)
    requires Valid(slot)
    requires |ms| == |nows| >= 1
    requires Get(StoreOf(slot), ms[0].dir).None?
    requires forall k :: 0 <= k < |ms| ==>
      ms[k].dir == ms[0].dir && ms[k].merged != CreatedAt && nows[k] - nows[0] <= Window
    requires forall k, l :: 0 <= k < l < |ms| ==> ms[k].merged != ms[l].merged
    ensures Size(AddAll(slot, ms, nows), ms[0].dir).1 == Some(|ms| + 1)
    ensures |Collect(AddAll(slot, ms, nows), ms[0].dir, f).1| == |ms|
  {
    var dir := ms[0].dir;
    var keys := [CreatedAt, ms[0].merged];
    var first := AddFile(slot, ms[0], nows[0]);
    FirstOpens(slot, ms[0], nows[0]);
    RestFits(ms, nows);
    AddAllGrows(first, dir, ms[1..], nows[1..], nows[0], keys);
    var r := AddAll(slot, ms, nows);
    assert r == AddAll(first, ms[1..], nows[1..]);
    PathsLength(ms[1..]);
    AddAllValid(slot, ms, nows);
    GroupCounts(r, dir, nows[0], keys + Paths(ms[1..]), f);
  }

  /** A file for a directory without a group opens one stamped now. */
  lemma FirstOpens(slot: Slot, m: Metadata, now: int)
    requires Get(StoreOf(slot), m.dir).None? && m.merged != CreatedAt
    ensures OpenWith(AddFile(slot, m, now), m.dir, now, [CreatedAt, m.merged])
  {
    UpdateStoreRestarts(slot, m.dir, m.merged, m, now);
  }

  /** In an open group, size counts every key and collect every key but the
      stamp. */
  lemma GroupCounts<R>(slot: Slot, dir: string, t0: int, keys: seq<string>, f: (string, Value) -> R)
    requires Valid(slot) && OpenWith(slot, dir, t0, keys) && CreatedAt in keys
    ensures Size(slot, dir).1 == Some(|keys|)
    ensures |Collect(slot, dir, f).1| == |keys| - 1
  {
    SizeCountsStamp(slot, dir, f);
  }

  /** The files after the first fit the group the first one opened. */
  lemma RestFits(ms: seq<Metadata>, nows: seq<int>)
    requires |ms| == |nows| >= 1
    requires forall k :: 0 <= k < |ms| ==>
      ms[k].dir == ms[0].dir && ms[k].merged != CreatedAt && nows[k] - nows[0] <= Window
    requires forall k, l :: 0 <= k < l < |ms| ==> ms[k].merged != ms[l].merged
    ensures Fits(ms[1..], nows[1..], ms[0].dir, nows[0], [CreatedAt, ms[0].merged])
  {
    var dir, keys := ms[0].dir, [CreatedAt, ms[0].merged];
    forall k | 0 <= k < |ms[1..]| ensures ms[1..][k].dir == dir && ms[1..][k].merged !in keys {
      assert ms[1..][k] == ms[k + 1];
    }
    forall k | 0 <= k < |nows[1..]| ensures nows[1..][k] - nows[0] <= Window {
      assert nows[1..][k] == nows[k + 1];
    }
    forall k, l | 0 <= k < l < |ms[1..]| ensures ms[1..][k].merged != ms[1..][l].merged {
      assert ms[1..][k] == ms[k + 1] && ms[1..][l] == ms[l + 1];
    }
  }

  lemma {:induction false} PathsLength(ms: seq<Metadata>)
    ensures |Paths(ms)| == |ms|
  {
    if ms != [] {
      PathsLength(ms[1..]);
    }
  }
}
