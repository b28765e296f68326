/** Persistent properties on disk: what a stop of the daemon at any moment leaves, and what is read back. */
module Persistence {
  import opened Properties
  import opened PropertyAreaModel
  import opened Text

  /** The files of the property directory. */
  type Files = map<string, string>

  const TEMP: string := ".temp"

  /** How opening the temporary file and renaming it turn out. */
  datatype Outcome = OpenFails | RenameFails | Succeeds

  /** The directory after each step of write_persistent_property: the temporary file is emptied,
      filled to any length, and renamed. */
  predicate LeftBy(files: Files, name: string, value: string, outcome: Outcome, left: Files) {
    || left == files
    || (!outcome.OpenFails? && exists k | 0 <= k <= |value| :: left == files[TEMP := value[..k]])
    || (outcome.RenameFails? && left == files - {TEMP})
    || (outcome.Succeeds? && left == files[name := value] - {TEMP})
  }

  /** The directory when the call has returned. */
  function Written(files: Files, name: string, value: string, outcome: Outcome): Files {
    match outcome
    case OpenFails => files
    case RenameFails => files - {TEMP}
    case Succeeds => files[name := value] - {TEMP}
  }

  /** What load_persistent_properties takes from a directory entry. */
  function Entry(files: Files, name: string): Option<string> {
    if PERSIST <= name && name in files
    then Some(if |files[name]| < PROP_VALUE_MAX then files[name] else files[name][..PROP_VALUE_MAX - 1])
    else None
  }

  /** The sets of a load that finds the entries in this order. */
  function LoadSets(files: Files, entries: seq<string>): seq<(string, string)> {
    if entries == [] then []
    else
      (match Entry(files, entries[0]) case Some(v) => [(entries[0], v)] case None => [])
      + LoadSets(files, entries[1..])
  }

  /** load_persistent_properties */
  function Load(a: Area, files: Files, entries: seq<string>): Area {
    Run(a, LoadSets(files, entries)).(loaded := true)
  }

  // ----- stopping in the middle of a write

  lemma PersistIsNotTemp(name: string)
    requires PERSIST <= name
    ensures name != TEMP
  {
    assert PERSIST[0] == 'p' && TEMP[0] == '.';
  }

  /** Whatever step the daemon stops at, the entry written is whole, old or new, and every other
      entry is as it was. */
  lemma CrashConsistent(files: Files, name: string, value: string, outcome: Outcome, left: Files, n: string)
    requires PERSIST <= name && |value| < PROP_VALUE_MAX && LeftBy(files, name, value, outcome, left)
    ensures Entry(left, n) == Entry(files, n) || (n == name && Entry(left, n) == Some(value))
  {
    PersistIsNotTemp(name);
    if PERSIST <= n {
      PersistIsNotTemp(n);
    }
  }

  /** A call that returned leaves the new value exactly if it was not refused by the system. */
  lemma WrittenIsLeft(files: Files, name: string, value: string, outcome: Outcome)
    requires PERSIST <= name && |value| < PROP_VALUE_MAX
    ensures LeftBy(files, name, value, outcome, Written(files, name, value, outcome))
    ensures outcome.Succeeds? ==> Entry(Written(files, name, value, outcome), name) == Some(value)
    ensures !outcome.Succeeds? ==> Entry(Written(files, name, value, outcome), name) == Entry(files, name)
  {
    PersistIsNotTemp(name);
  }

  lemma {:induction false} SameEntries(files: Files, other: Files, entries: seq<string>)
    requires forall n :: Entry(files, n) == Entry(other, n)
    ensures LoadSets(files, entries) == LoadSets(other, entries)
  {
    hide Entry;
    if entries != [] {
      SameEntries(files, other, entries[1..]);
    }
  }

  /** Loading after a stop gives what loading before the write or after it would have given. */
  lemma LoadAfterCrash(a: Area, files: Files, name: string, value: string,
                       outcome: Outcome, left: Files, entries: seq<string>)
    requires PERSIST <= name && |value| < PROP_VALUE_MAX && LeftBy(files, name, value, outcome, left)
    ensures Load(a, left, entries) == Load(a, files, entries)
         || Load(a, left, entries) == Load(a, files[name := value], entries)
  {
    hide LeftBy, Run;
    var new_ := files[name := value];
    var old_ := Entry(left, name) == Entry(files, name);
    forall n ensures Entry(left, n) == Entry(if old_ then files else new_, n) {
      CrashConsistent(files, name, value, outcome, left, n);
    }
    SameEntries(left, if old_ then files else new_, entries);
  }

  // ----- memory and disk

  /** Every persistent file holds the value in memory. */
  predicate Synced(m: map<string, string>, files: Files) {
    forall n :: n in files && PERSIST <= n ==> n in m && m[n] == files[n]
  }

  /** The names found on disk fit the table together with those stored. */
  predicate HasRoom(m: map<string, string>, entries: seq<string>) {
    |m.Keys + set e | e in entries| <= PA_COUNT_MAX
  }

  lemma PersistIsPlain(name: string)
    requires PERSIST <= name
    ensures !(RO <= name) && !(NET <= name) && |name| >= 1
  {
    assert PERSIST[0] == 'p' && RO[0] == 'r' && NET[0] == 'n';
  }

  lemma RoomAfter(m: map<string, string>, entries: seq<string>, value: string)
    requires entries != [] && HasRoom(m, entries)
    ensures HasRoom(m, entries[1..]) && HasRoom(m[entries[0] := value], entries[1..])
    ensures entries[0] !in m ==> |m| < PA_COUNT_MAX
  {
    var all, e := m.Keys + (set e | e in entries), entries[0];
    Smaller(m.Keys + (set e | e in entries[1..]), all);
    Smaller(m[e := value].Keys + (set e | e in entries[1..]), all);
    assert |m| == |m.Keys|;
    if e !in m {
      Smaller(m.Keys + {e}, all);
    }
  }

  lemma Smaller<T>(x: set<T>, y: set<T>)
    requires x <= y
    ensures |x| <= |y|
  {
    var rest := y - x;
    assert y == x + rest;
  }

  /** What a load leaves in the store: the entries that are well named, and what was there. */
  lemma {:induction false} LoadGives(m: map<string, string>, files: Files, entries: seq<string>, n: string)
    requires HasRoom(m, entries)
    ensures Get(MapRun(m, LoadSets(files, entries)), n) ==
      if n in entries && Entry(files, n).Some? && |n| < PROP_NAME_MAX then Entry(files, n) else Get(m, n)
    decreases |entries|
  {
    hide HasRoom, MapSet, Entry;
    if entries != [] {
      var e, rest := entries[0], entries[1..];
      var found := Entry(files, e);
      RoomAfter(m, entries, if found.Some? then found.value else "");
      if found.Some? {
        LoadOne(m, files, e);
        var s := MapSet(m, e, found.value).0;
        assert LoadSets(files, entries) == [(e, found.value)] + LoadSets(files, rest);
        assert ([(e, found.value)] + LoadSets(files, rest))[1..] == LoadSets(files, rest);
        LoadGives(s, files, rest, n);
      } else {
        assert LoadSets(files, entries) == LoadSets(files, rest);
        LoadGives(m, files, rest, n);
      }
    }
  }

  lemma LoadOne(m: map<string, string>, files: Files, e: string)
    requires Entry(files, e).Some? && (e !in m ==> |m| < PA_COUNT_MAX)
    ensures MapSet(m, e, Entry(files, e).value).0 ==
      if |e| < PROP_NAME_MAX then m[e := Entry(files, e).value] else m
  {
    PersistIsPlain(e);
  }

  /** Spelled out: files whose names begin with "persist." and have fewer than 32 characters, each cut to 91. */
  lemma LoadedValue(m: map<string, string>, files: Files, entries: seq<string>, n: string)
    requires HasRoom(m, entries)
    ensures Get(MapRun(m, LoadSets(files, entries)), n) ==
      if n in entries && n in files && "persist." <= n && |n| < 32
      then Some(if |files[n]| <= 91 then files[n] else files[n][..91]) else Get(m, n)
  {
    hide HasRoom, MapRun, LoadSets;
    LoadGives(m, files, entries, n);
  }

  /** After a load that found all files, with room for them, disk and memory agree exactly if every
      persistent file has a name and a value short enough. */
  lemma LoadSyncs(a: Area, files: Files, entries: seq<string>)
    requires Sound(a) && HasRoom(MapOf(a.props), entries) && forall n :: n in files ==> n in entries
    ensures var s := Load(a, files, entries);
            Sound(s) && s.loaded &&
            (Synced(MapOf(s.props), files) <==>
               forall n :: n in files && PERSIST <= n ==> |n| < PROP_NAME_MAX && |files[n]| < PROP_VALUE_MAX)
  {
    hide HasRoom, Run, MapRun, LoadSets, MapOf, SoundInfo, Unique;
    var m, s := MapOf(a.props), Load(a, files, entries);
    RunRefines(a, LoadSets(files, entries));
    forall n | n in files && PERSIST <= n
      ensures n in MapOf(s.props) && MapOf(s.props)[n] == files[n] <==>
              |n| < PROP_NAME_MAX && |files[n]| < PROP_VALUE_MAX
    {
      LoadGives(m, files, entries, n);
      StoredNames(a, n);
    }
  }

  /** What a set asks to be written to disk. */
  lemma SetWrites(a: Area, name: string, value: string)
    ensures var (s, ok) := Set(a, name, value);
            s.loaded == a.loaded &&
            s.writes == if ok && a.loaded && PERSIST <= name then a.writes + [(name, value)] else a.writes
  {
    hide PutValue, Accepts;
    if PERSIST <= name { PersistIsPlain(name); }
    assert NET <= NET_CHANGE;
    if Accepts(a, name, value) {
      PutLogs(a, name, value);
      if Accepts(PutValue(a, name, value), NET_CHANGE, name) {
        PutLogs(PutValue(a, name, value), NET_CHANGE, name);
      }
    }
  }

  lemma PutLogs(a: Area, name: string, value: string)
    requires Accepts(a, name, value)
    ensures PutValue(a, name, value).loaded == a.loaded && PutValue(a, name, value).writes == a.writes
  {
  }

  /** The directory after sets that follow the load, each with the outcome of its write. */
  function DiskAfter(a: Area, files: Files, sets: seq<(string, string)>, outcomes: seq<Outcome>): Files
    requires |outcomes| == |sets|
    decreases |sets|
  {
    if sets == [] then files
    else
      var (name, value) := sets[0];
      var (s, ok) := Set(a, name, value);
      var disk := if ok && a.loaded && PERSIST <= name then Written(files, name, value, outcomes[0]) else files;
      DiskAfter(s, disk, sets[1..], outcomes[1..])
  }

  /** The last set of n that was accepted, and the outcome of its write. */
  function LastTry(m: map<string, string>, sets: seq<(string, string)>, outcomes: seq<Outcome>, n: string):
    Option<(string, Outcome)>
    requires |outcomes| == |sets|
    decreases |sets|
  {
    if sets == [] then None
    else
      var (name, value) := sets[0];
      var later := LastTry(MapSet(m, name, value).0, sets[1..], outcomes[1..], n);
      if later.Some? then later
      else if name == n && MapAccepts(m, name, value) then Some((value, outcomes[0]))
      else None
  }

  /** The value of the last set of n that was accepted and written, or what was on disk before. */
  function LastKept(before: Option<string>, m: map<string, string>, sets: seq<(string, string)>,
                    outcomes: seq<Outcome>, n: string): Option<string>
    requires |outcomes| == |sets|
    decreases |sets|
  {
    if sets == [] then before
    else
      var (name, value) := sets[0];
      var now := if name == n && MapAccepts(m, name, value) && outcomes[0].Succeeds? then Some(value) else before;
      LastKept(now, MapSet(m, name, value).0, sets[1..], outcomes[1..], n)
  }

  /** What one accepted set leaves of a persistent name, in memory and on disk. */
  lemma SetOnDisk(a: Area, files: Files, name: string, value: string, outcome: Outcome, n: string)
    requires Sound(a) && PERSIST <= n
    ensures var (s, ok) := Set(a, name, value);
            var disk := if ok && PERSIST <= name then Written(files, name, value, outcome) else files;
            && (ok <==> MapAccepts(MapOf(a.props), name, value))
            && Get(MapOf(s.props), n) == (if ok && name == n then Some(value) else Get(MapOf(a.props), n))
            && Get(disk, n) == (if ok && name == n && outcome.Succeeds? then Some(value) else Get(files, n))
  {
    hide Set, MapOf, Sound, MapAccepts;
    SetRefines(a, name, value);
    PersistIsPlain(n);
    PersistIsNotTemp(n);
    assert NET <= NET_CHANGE;
  }

  /** Memory holds the last accepted value of a persistent name, disk the last one written. */
  lemma {:induction false} MemoryAndDisk(a: Area, files: Files, sets: seq<(string, string)>, outcomes: seq<Outcome>, n: string)
    requires Sound(a) && a.loaded && PERSIST <= n && |outcomes| == |sets|
    ensures var m, last := MapOf(a.props), LastTry(MapOf(a.props), sets, outcomes, n);
            && Get(MapOf(Run(a, sets).props), n) == (if last.Some? then Some(last.value.0) else Get(m, n))
            && Get(DiskAfter(a, files, sets, outcomes), n) == LastKept(Get(files, n), m, sets, outcomes, n)
    decreases |sets|
  {
    hide Set, MapOf, Sound, Written, MapSet, MapAccepts, Get;
    if sets != [] {
      var (name, value) := sets[0];
      var (s, ok) := Set(a, name, value);
      SetSound(a, name, value);
      SetRefines(a, name, value);
      SetWrites(a, name, value);
      SetOnDisk(a, files, name, value, outcomes[0], n);
      var disk := if ok && PERSIST <= name then Written(files, name, value, outcomes[0]) else files;
      MemoryAndDisk(s, disk, sets[1..], outcomes[1..], n);
    }
  }

  /** The last try decides what is kept if it was written, and nothing is kept without one. */
  lemma {:induction false} LastTryKept(before: Option<string>, m: map<string, string>, sets: seq<(string, string)>,
                                       outcomes: seq<Outcome>, n: string)
    requires |outcomes| == |sets|
    ensures var last, kept := LastTry(m, sets, outcomes, n), LastKept(before, m, sets, outcomes, n);
            && (last == None ==> kept == before)
            && (last.Some? && last.value.1.Succeeds? ==> kept == Some(last.value.0))
    decreases |sets|
  {
    hide MapSet, MapAccepts;
    if sets != [] {
      var (name, value) := sets[0];
      var now := if name == n && MapAccepts(m, name, value) && outcomes[0].Succeeds? then Some(value) else before;
      LastTryKept(now, MapSet(m, name, value).0, sets[1..], outcomes[1..], n);
    }
  }

  /** Whatever is set after a load, and whatever becomes of the writes: a persistent name agrees in
      memory and on disk exactly if its last accepted set was written, or found its value on disk
      already, or if there was none and it agreed before. */
  lemma DiskAgrees(a: Area, files: Files, sets: seq<(string, string)>, outcomes: seq<Outcome>, n: string)
    requires Sound(a) && a.loaded && PERSIST <= n && |outcomes| == |sets|
    ensures var m, last := MapOf(a.props), LastTry(MapOf(a.props), sets, outcomes, n);
            Get(MapOf(Run(a, sets).props), n) == Get(DiskAfter(a, files, sets, outcomes), n) <==>
              if last == None then Get(m, n) == Get(files, n)
              else last.value.1.Succeeds? || LastKept(Get(files, n), m, sets, outcomes, n) == Some(last.value.0)
  {
    hide MapOf, Run, DiskAfter, LastTry, LastKept, Get, Sound;
    MemoryAndDisk(a, files, sets, outcomes, n);
    LastTryKept(Get(files, n), MapOf(a.props), sets, outcomes, n);
  }

  /** If the last accepted set of every persistent name was written, every persistent file holds the
      value in memory. */
  lemma RunKeepsSynced(a: Area, files: Files, sets: seq<(string, string)>, outcomes: seq<Outcome>)
    requires Sound(a) && a.loaded && Synced(MapOf(a.props), files) && |outcomes| == |sets|
    requires forall n :: PERSIST <= n && LastTry(MapOf(a.props), sets, outcomes, n).Some? ==>
      LastTry(MapOf(a.props), sets, outcomes, n).value.1.Succeeds?
    ensures Synced(MapOf(Run(a, sets).props), DiskAfter(a, files, sets, outcomes))
  {
    hide MapOf, Run, DiskAfter, LastTry, LastKept, Sound;
    forall n | n in DiskAfter(a, files, sets, outcomes) && PERSIST <= n
      ensures Get(MapOf(Run(a, sets).props), n) == Get(DiskAfter(a, files, sets, outcomes), n)
    {
      MemoryAndDisk(a, files, sets, outcomes, n);
      LastTryKept(Get(files, n), MapOf(a.props), sets, outcomes, n);
    }
  }

  /** What is stored is short enough to be read back whole. */
  lemma StoredValues(a: Area, n: string)
    requires Sound(a) && n in MapOf(a.props)
    ensures |MapOf(a.props)[n]| < PROP_VALUE_MAX
  {
    hide MapOf;
    MapEntries(a.props);
    var i :| 0 <= i < |a.props| && a.props[i].name == n;
    assert SoundInfo(a.props[i]);
  }

  /** What is kept of a name was in memory once, or on disk at the start. */
  lemma {:induction false} KeptIsShort(before: Option<string>, m: map<string, string>, sets: seq<(string, string)>,
                                       outcomes: seq<Outcome>, n: string)
    requires |outcomes| == |sets| && (before.Some? ==> |before.value| < PROP_VALUE_MAX && |n| < PROP_NAME_MAX)
    ensures var kept := LastKept(before, m, sets, outcomes, n);
            kept.Some? ==> |kept.value| < PROP_VALUE_MAX && |n| < PROP_NAME_MAX
    decreases |sets|
  {
    hide MapSet;
    if sets != [] {
      var (name, value) := sets[0];
      var now := if name == n && MapAccepts(m, name, value) && outcomes[0].Succeeds? then Some(value) else before;
      KeptIsShort(now, MapSet(m, name, value).0, sets[1..], outcomes[1..], n);
    }
  }

  /** A whole life: after a load and any sets, written or not, the daemon stops inside the write of
      one more, and starts again with b. Every persistent property has the last value that was
      written, which is the one in memory if that was written, or, if none ever was, what b has of
      it; the one being written has that or the new one. */
  lemma RestartAfterCrash(a: Area, files: Files, sets: seq<(string, string)>, outcomes: seq<Outcome>,
                          name: string, value: string, outcome: Outcome, left: Files, b: Area, entries: seq<string>, n: string)
    requires Sound(a) && a.loaded && Synced(MapOf(a.props), files) && |outcomes| == |sets|
    requires PERSIST <= name && |value| < PROP_VALUE_MAX
    requires LeftBy(DiskAfter(a, files, sets, outcomes), name, value, outcome, left)
    requires Sound(b) && HasRoom(MapOf(b.props), entries) && forall e :: e in left ==> e in entries
    requires PERSIST <= n
    ensures var m, now := MapOf(a.props), Get(MapOf(Load(b, left, entries).props), n);
            var last, kept := LastTry(m, sets, outcomes, n), LastKept(Get(files, n), m, sets, outcomes, n);
            || (n == name && now == Some(value))
            || (kept == None && now == Get(MapOf(b.props), n))
            || (kept.Some? && now == kept
                && (last == None || last.value.1.Succeeds? ==> now == Get(MapOf(Run(a, sets).props), n)))
  {
    hide Run, MapRun, DiskAfter, LoadSets, MapOf, SoundInfo, Unique, HasRoom, LastTry, LastKept;
    var m, disk := MapOf(a.props), DiskAfter(a, files, sets, outcomes);
    MemoryAndDisk(a, files, sets, outcomes, n);
    LastTryKept(Get(files, n), m, sets, outcomes, n);
    StoredNames(a, n);
    if n in files {
      StoredValues(a, n);
    }
    KeptIsShort(Get(files, n), m, sets, outcomes, n);
    CrashConsistent(disk, name, value, outcome, left, n);
    PersistIsNotTemp(n);
    RunRefines(b, LoadSets(left, entries));
    LoadGives(MapOf(b.props), left, entries, n);
    assert n in disk ==> Entry(disk, n) == Some(disk[n]);
  }

  // ----- the steps in memory and on disk

  lemma LoadStep(a: Area, files: Files, entries: seq<string>, k: nat)
    requires k < |entries|
    ensures var e, rest := entries[k], LoadSets(files, entries[k + 1..]);
            Run(a, LoadSets(files, entries[k..])) ==
              match Entry(files, e)
              case Some(v) => Run(Set(a, e, v).0, rest)
              case None => Run(a, rest)
  {
    hide Set, Entry;
    var e, rest := entries[k], LoadSets(files, entries[k + 1..]);
    assert entries[k..][1..] == entries[k + 1..];
    if Entry(files, e).Some? {
      assert LoadSets(files, entries[k..]) == [(e, Entry(files, e).value)] + rest;
      assert ([(e, Entry(files, e).value)] + rest)[1..] == rest;
    } else {
      assert LoadSets(files, entries[k..]) == rest;
    }
  }

  lemma LoadEnd(a: Area, files: Files)
    ensures Run(a, LoadSets(files, [])) == a
  {
  }

  /** Writing an entry back as it was read changes no entry. */
  lemma RewriteKeeps(files: Files, name: string, value: string, outcome: Outcome)
    requires Entry(files, name) == Some(value)
    ensures forall n :: Entry(Written(files, name, value, outcome), n) == Entry(files, n)
  {
    forall n ensures Entry(Written(files, name, value, outcome), n) == Entry(files, n) {
      if PERSIST <= n { PersistIsNotTemp(n); }
    }
  }

  /** load_persistent_properties, given the directory entries readdir returns in turn. On a first
      load nothing is written; on a second one every entry is written back as it is read. */
  method LoadPersistentProperties(area: PropertyArea, disk: Disk, entries: seq<string>, outcomes: seq<Outcome>)
    requires area.Valid() && |outcomes| == |entries|
    modifies area, area.toc, area.infos, disk
    ensures area.Valid() && area.Value() == Load(old(area.Value()), old(disk.files), entries)
    ensures !old(area.loaded) ==> disk.files == old(disk.files)
    ensures forall n :: Entry(disk.files, n) == Entry(old(disk.files), n)
  {
    hide Set, Run, LoadSets, Sound, TocEntry, Written;
    ghost var files := disk.files;
    ghost var goal := Run(area.Value(), LoadSets(files, entries));
    assert entries[0..] == entries;
    var k := 0;
    while k < |entries|
      invariant k <= |entries| && area.Valid() && area.loaded == old(area.loaded)
      invariant !area.loaded ==> disk.files == files
      invariant forall n :: Entry(disk.files, n) == Entry(files, n)
      invariant Run(area.Value(), LoadSets(files, entries[k..])) == goal
    {
      LoadStep(area.Value(), files, entries, k);
      var name := entries[k];
      assert Entry(disk.files, name) == Entry(files, name);
      if PERSIST <= name && name in disk.files {
        var content := disk.files[name];
        var length := if |content| < PROP_VALUE_MAX then |content| else PROP_VALUE_MAX - 1;
        assert content[..|content|] == content;
        var ok := area.SetProperty(name, content[..length]);
        if ok && area.loaded {
          RewriteKeeps(disk.files, name, content[..length], outcomes[k]);
          disk.WritePersistentProperty(name, content[..length], outcomes[k]);
        }
      }
      k := k + 1;
    }
    assert entries[k..] == [];
    LoadEnd(area.Value(), files);
    area.MarkLoaded();
  }

  class Disk {
    var files: Files
    /** Every directory there has been. */
    ghost var passed: seq<Files>

    constructor (files: Files)
      ensures this.files == files && passed == [files]
    {
      this.files, passed := files, [files];
    }

    /** A step that the file system takes at once. */
    method Change(next: Files)
      modifies this
      ensures files == next && passed == old(passed) + [next]
    {
      files := next;
      passed := passed + [next];
    }

    /** write_persistent_property: every directory on the way is one a stop may leave. */
    method WritePersistentProperty(name: string, value: string, outcome: Outcome)
      requires PERSIST <= name
      modifies this
      ensures files == Written(old(files), name, value, outcome)
      ensures old(passed) <= passed
      ensures forall i :: |old(passed)| <= i < |passed| ==> LeftBy(old(files), name, value, outcome, passed[i])
    {
      hide LeftBy;
      if outcome == OpenFails { return; }
      ghost var was := files;
      Stage(name, value, outcome);
      PersistIsNotTemp(name);
      if outcome == RenameFails {
        Change(files - {TEMP});
      } else {
        Change(files[name := files[TEMP]] - {TEMP});
      }
      assert files == Written(was, name, value, outcome);
      AtTheEnd(was, name, value, outcome);
    }

    /** Emptying the temporary file and filling it. */
    method Stage(ghost name: string, value: string, ghost outcome: Outcome)
      requires !outcome.OpenFails?
      modifies this
      ensures files == old(files)[TEMP := value]
      ensures old(passed) <= passed
      ensures forall i :: |old(passed)| <= i < |passed| ==> LeftBy(old(files), name, value, outcome, passed[i])
    {
      hide LeftBy;
      ghost var was := files;
      Change(files[TEMP := ""]);
      assert value[..0] == "";
      PartWay(was, name, value, outcome, 0);
      var k := 0;
      while k < |value|
        invariant k <= |value| && files == was[TEMP := value[..k]]
        invariant old(passed) <= passed
        invariant forall i :: |old(passed)| <= i < |passed| ==> LeftBy(was, name, value, outcome, passed[i])
      {
        k := k + 1;
        Change(files[TEMP := value[..k]]);
        PartWay(was, name, value, outcome, k);
      }
      assert value[..k] == value;
    }
  }

  lemma PartWay(files: Files, name: string, value: string, outcome: Outcome, k: nat)
    requires !outcome.OpenFails? && k <= |value|
    ensures LeftBy(files, name, value, outcome, files[TEMP := value[..k]])
  {
  }

  lemma AtTheEnd(files: Files, name: string, value: string, outcome: Outcome)
    ensures LeftBy(files, name, value, outcome, Written(files, name, value, outcome))
  {
  }
}
