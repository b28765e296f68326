/** The shared property area as the daemon updates it in place. */
module PropertyAreaModel {
  import opened Bytes
  import opened Properties
  import opened Text

  /** Where the i-th prop_info lies in the area. */
  function Offset(i: nat): nat {
    PA_INFO_START + INFO_SIZE * i
  }

  /** An entry of the table of contents: the length of the name and the offset of the prop_info. */
  function TocEntry(name: string, i: nat): (entry: uint32)
    requires |name| < PROP_NAME_MAX && i < PA_COUNT_MAX
  {
    |name| * LOW + Offset(i)
  }

  /** Both parts of an entry read back; every prop_info lies inside the 32768 octets of the area,
      behind the table of contents. */
  lemma TocRoundTrip(name: string, i: nat)
    requires |name| < PROP_NAME_MAX && i < PA_COUNT_MAX
    ensures var entry := TocEntry(name, i);
            entry / 0x100_0000 == |name| && (entry % 0x100_0000 - 1024) / 128 == i
    ensures 32 + 4 * PA_COUNT_MAX <= Offset(i) && Offset(i) + INFO_SIZE <= 32768
  {
    var offset := Offset(i);
    assert (|name| * LOW + offset) / LOW == |name| && (|name| * LOW + offset) % LOW == offset;
    assert (INFO_SIZE * i) / INFO_SIZE == i;
  }

  class PropertyArea {
    const toc: array<uint32>
    const infos: array<PropInfo>
    var count: nat
    var serial: uint32
    var loaded: bool
    ghost var changes: seq<(string, string)>
    ghost var writes: seq<(string, string)>

    /** init_property_area: all zero. */
    constructor ()
      ensures Valid() && fresh(toc) && fresh(infos)
      ensures Value() == Area([], 0, false, [], [])
    {
      toc := new uint32[PA_COUNT_MAX](_ => 0);
      infos := new PropInfo[PA_COUNT_MAX](_ => PropInfo("", 0, ""));
      count, serial, loaded, changes, writes := 0, 0, false, [], [];
    }

    ghost predicate Valid()
      reads this, toc, infos
    {
      && toc.Length == infos.Length == PA_COUNT_MAX && count <= PA_COUNT_MAX
      && Sound(Value())
      && forall i :: 0 <= i < count ==> |infos[i].name| < PROP_NAME_MAX && toc[i] == TocEntry(infos[i].name, i)
    }

    ghost function Value(): Area
      requires count <= infos.Length
      reads this, infos
    {
      Area(infos[..count], serial, loaded, changes, writes)
    }

    /** __system_property_find: the place of a name in the table, or -1. */
    method Find(name: string) returns (r: int)
      requires Valid()
      ensures r == FindIndex(infos[..count], name)
    {
      hide TocEntry, Sound, FindIndex;
      var i := 0;
      while i < count
        invariant i <= count && forall k :: 0 <= k < i ==> infos[k].name != name
      {
        var entry := toc[i];
        TocRoundTrip(infos[i].name, i);
        if entry / LOW == |name| {
          var at := (entry % LOW - PA_INFO_START) / INFO_SIZE;
          if name <= infos[at].name {
            Found(infos[..count], name, at);
            return at;
          }
        }
        i := i + 1;
      }
      r := -1;
      NotFound(infos[..count], name);
    }

    /** update_prop_info */
    method UpdatePropInfo(i: nat, value: string)
      requires i < infos.Length && |value| < PROP_VALUE_MAX
      modifies infos
      ensures infos[..] == old(infos[..])[i := Updated(old(infos[i]), value)]
    {
      hide Dirty, Publish;
      infos[i] := infos[i].(serial := Dirty(infos[i].serial));
      infos[i] := infos[i].(value := value);
      infos[i] := infos[i].(serial := Publish(infos[i].serial, |value|));
    }

    /** A prop_info and its table entry behind those there are. */
    method Append(name: string, value: string)
      requires toc.Length == infos.Length == PA_COUNT_MAX && count < PA_COUNT_MAX
      requires |name| < PROP_NAME_MAX && |value| < PROP_VALUE_MAX
      modifies this`count, toc, infos
      ensures infos[..] == old(infos[..])[old(count) := PropInfo(name, |value| * LOW, value)]
      ensures toc[..] == old(toc[..])[old(count) := TocEntry(name, old(count))]
      ensures count == old(count) + 1
    {
      infos[count] := PropInfo(name, |value| * LOW, value);
      toc[count] := |name| * LOW + (PA_INFO_START + INFO_SIZE * count);
      count := count + 1;
    }

    /** The part of _property_set that changes the table. */
    method Store(name: string, value: string)
      requires Valid() && Accepts(Value(), name, value)
      modifies this`count, this`serial, toc, infos
      ensures Valid() && Value() == PutValue(old(Value()), name, value)
    {
      hide Sound, Updated, TocEntry, Accepts;
      ghost var was, a := infos[..], Value();
      PutSound(a, name, value);
      AcceptedLengths(a, name, value);
      var i := Find(name);
      if i != -1 {
        UpdatePropInfo(i, value);
        NameStays(was[i], value);
        assert infos[..count] == was[..count][i := Updated(was[i], value)];
        assert forall k :: 0 <= k < count ==> infos[k].name == was[k].name;
      } else {
        ghost var entries := toc[..];
        Append(name, value);
        assert infos[..count] == was[..count - 1] + [PropInfo(name, |value| * LOW, value)];
        assert forall k :: 0 <= k < count - 1 ==> infos[k] == was[k] && toc[k] == entries[k];
      }
      serial := (serial + 1) % 0x1_0000_0000;
    }

    /** _property_set */
    method SetProperty(name: string, value: string) returns (ok: bool)
      requires Valid()
      modifies this, toc, infos
      ensures Valid() && loaded == old(loaded)
      ensures (Value(), ok) == Set(old(Value()), name, value)
      decreases name != NET_CHANGE
    {
      hide Sound, FindIndex, PutValue, TocEntry;
      if |name| >= PROP_NAME_MAX || |value| >= PROP_VALUE_MAX || |name| < 1 { return false; }
      var i := Find(name);
      if i != -1 {
        if RO <= name { return false; }
      } else {
        if count == PA_COUNT_MAX { return false; }
      }
      Store(name, value);
      if NET <= name {
        if name == NET_CHANGE { return true; }
        var _ := SetProperty(NET_CHANGE, name);
      } else if loaded && PERSIST <= name {
        WritePersistent(name, value);
      }
      Changed(name, value);
      ok := true;
    }

    /** Stands for the call of write_persistent_property. */
    method WritePersistent(name: string, value: string)
      requires Valid()
      modifies this`writes
      ensures Valid() && writes == old(writes) + [(name, value)]
    {
      hide Unique, SoundInfo, TocEntry;
      writes := writes + [(name, value)];
    }

    /** Stands for the call of property_changed. */
    method Changed(name: string, value: string)
      requires Valid()
      modifies this`changes
      ensures Valid() && changes == old(changes) + [(name, value)]
    {
      hide Unique, SoundInfo, TocEntry;
      changes := changes + [(name, value)];
    }

    method MarkLoaded()
      requires Valid()
      modifies this`loaded
      ensures Valid() && Value() == old(Value()).(loaded := true)
    {
      hide Unique, SoundInfo, TocEntry;
      loaded := true;
    }

    /** _property_get */
    method GetProperty(name: string) returns (value: Option<string>)
      requires Valid()
      ensures value == Lookup(MapOf(infos[..count]), name)
    {
      hide FindIndex, TocEntry, SoundInfo, MapOf;
      if |name| >= PROP_NAME_MAX { return None; }
      var i := Find(name);
      assert Unique(Value().props);
      MapEntries(infos[..count]);
      if i == -1 { return None; }
      assert infos[..count][i].name == name;
      value := Some(infos[i].value);
    }
  }

  lemma Found(props: seq<PropInfo>, name: string, i: nat)
    requires i < |props| && props[i].name == name && forall k :: 0 <= k < i ==> props[k].name != name
    ensures FindIndex(props, name) == i
  {
    hide FindIndex;
  }

  lemma NotFound(props: seq<PropInfo>, name: string)
    requires forall k :: 0 <= k < |props| ==> props[k].name != name
    ensures FindIndex(props, name) == -1
  {
    hide FindIndex;
  }

  lemma AcceptedLengths(a: Area, name: string, value: string)
    requires Accepts(a, name, value)
    ensures |name| < PROP_NAME_MAX && |value| < PROP_VALUE_MAX
    ensures FindIndex(a.props, name) == -1 ==> |a.props| < PA_COUNT_MAX
  {
  }
}
