/** The property store: an append-only table in shared memory that refines a finite map. */
module Properties {
  import opened Bytes
  import opened Sequences
  import opened Text

  const PROP_NAME_MAX: nat := 32
  const PROP_VALUE_MAX: nat := 92
  const PA_COUNT_MAX: nat := 247
  const PA_INFO_START: nat := 1024
  const INFO_SIZE: nat := 128
  const NET: string := "net."
  const NET_CHANGE: string := "net.change"
  const RO: string := "ro."
  const PERSIST: string := "persist."

  // ----- serials

  const LOW: nat := 0x100_0000

  /** serial | 1 */
  function Dirty(serial: uint32): uint32 {
    if serial % 2 == 0 then serial + 1 else serial
  }

  /** (length << 24) | ((serial + 1) & 0xffffff) */
  function Publish(serial: uint32, length: byte): uint32 {
    length * LOW + (serial + 1) % LOW
  }

  predicate AtRest(serial: uint32, length: nat) {
    serial % 2 == 0 && serial / LOW == length
  }

  lemma PublishRests(serial: uint32, length: byte)
    requires serial % 2 == 0
    ensures AtRest(Publish(Dirty(serial), length), length)
    ensures Publish(Dirty(serial), length) % LOW == (serial + 2) % LOW
  {
    var low := (serial + 2) % LOW;
    assert Dirty(serial) % 2 == 1;
    EvenMod(serial + 2);
    QuotientIs(length, low);
  }

  lemma EvenMod(n: nat)
    requires n % 2 == 0
    ensures n % LOW % 2 == 0
  {
    assert n == LOW * (n / LOW) + n % LOW;
    assert LOW * (n / LOW) == 2 * (0x80_0000 * (n / LOW));
  }

  lemma QuotientIs(length: nat, low: nat)
    requires low < LOW && low % 2 == 0
    ensures (length * LOW + low) / LOW == length && (length * LOW + low) % LOW == low
    ensures (length * LOW + low) % 2 == 0
  {
    assert length * LOW == 2 * (0x80_0000 * length);
  }

  // ----- the store as a value

  datatype PropInfo = PropInfo(name: string, serial: uint32, value: string)

  /** changes: what property_changed was told; writes: what went to write_persistent_property. */
  datatype Area = Area(
    props: seq<PropInfo>, serial: uint32, loaded: bool,
    changes: seq<(string, string)>, writes: seq<(string, string)>)

  function FindIndex(props: seq<PropInfo>, name: string): (r: int)
    ensures r == -1 ==> forall i :: 0 <= i < |props| ==> props[i].name != name
    ensures r != -1 ==> 0 <= r < |props| && props[r].name == name && forall i :: 0 <= i < r ==> props[i].name != name
  {
    if props == [] then -1
    else if props[0].name == name then 0
    else
      var r := FindIndex(props[1..], name);
      if r == -1 then -1 else r + 1
  }

  predicate Accepts(a: Area, name: string, value: string) {
    && 1 <= |name| < PROP_NAME_MAX && |value| < PROP_VALUE_MAX
    && if FindIndex(a.props, name) != -1 then !(RO <= name) else |a.props| < PA_COUNT_MAX
  }

  function Updated(p: PropInfo, value: string): PropInfo
    requires |value| < PROP_VALUE_MAX
  {
    p.(value := value, serial := Publish(Dirty(p.serial), |value|))
  }

  /** The new or changed entry, and the serial of the whole area. */
  function PutValue(a: Area, name: string, value: string): Area
    requires Accepts(a, name, value)
  {
    var i := FindIndex(a.props, name);
    a.(serial := (a.serial + 1) % 0x1_0000_0000,
       props := if i != -1 then a.props[i := Updated(a.props[i], value)]
                else a.props + [PropInfo(name, |value| * LOW, value)])
  }

  /** _property_set */
  function Set(a: Area, name: string, value: string): (r: (Area, bool))
    decreases name != NET_CHANGE
  {
    if !Accepts(a, name, value) then (a, false)
    else
      var s := PutValue(a, name, value);
      if name == NET_CHANGE then (s, true)
      else
        var s := if NET <= name then Set(s, NET_CHANGE, name).0
                 else if s.loaded && PERSIST <= name then s.(writes := s.writes + [(name, value)])
                 else s;
        (s.(changes := s.changes + [(name, value)]), true)
  }

  // ----- what every set keeps

  predicate Unique(props: seq<PropInfo>) {
    forall i, j :: 0 <= i < j < |props| ==> props[i].name != props[j].name
  }

  predicate SoundInfo(p: PropInfo) {
    1 <= |p.name| < PROP_NAME_MAX && |p.value| < PROP_VALUE_MAX && AtRest(p.serial, |p.value|)
  }

  predicate Sound(a: Area) {
    Unique(a.props) && |a.props| <= PA_COUNT_MAX && forall i :: 0 <= i < |a.props| ==> SoundInfo(a.props[i])
  }

  lemma UpdatedSound(p: PropInfo, value: string)
    requires SoundInfo(p) && |value| < PROP_VALUE_MAX
    ensures SoundInfo(Updated(p, value))
  {
    hide Publish, Dirty, AtRest;
    assert p.serial % 2 == 0 by { RestIsEven(p.serial, |p.value|); }
    PublishRests(p.serial, |value|);
  }

  lemma RestIsEven(serial: uint32, length: nat)
    requires AtRest(serial, length)
    ensures serial % 2 == 0
  {
  }

  lemma FirstSerialRests(length: byte)
    ensures length * LOW < 0x1_0000_0000 && AtRest(length * LOW, length)
  {
    QuotientIs(length, 0);
  }

  lemma PutSound(a: Area, name: string, value: string)
    requires Sound(a) && Accepts(a, name, value)
    ensures Sound(PutValue(a, name, value))
  {
    hide Updated, SoundInfo, FindIndex;
    var i := FindIndex(a.props, name);
    if i != -1 {
      UpdatedSound(a.props[i], value);
      NameStays(a.props[i], value);
    } else {
      NewSound(name, value);
    }
  }

  /** No stored name is too long to be looked up. */
  lemma StoredNames(a: Area, n: string)
    requires Sound(a)
    ensures n in MapOf(a.props) ==> |n| < PROP_NAME_MAX
  {
    hide MapOf;
    MapEntries(a.props);
    if n in MapOf(a.props) {
      var i :| 0 <= i < |a.props| && a.props[i].name == n;
      assert SoundInfo(a.props[i]);
    }
  }

  lemma NameStays(p: PropInfo, value: string)
    requires |value| < PROP_VALUE_MAX
    ensures Updated(p, value).name == p.name && Updated(p, value).value == value
  {
  }

  lemma NewSound(name: string, value: string)
    requires 1 <= |name| < PROP_NAME_MAX && |value| < PROP_VALUE_MAX
    ensures SoundInfo(PropInfo(name, |value| * LOW, value))
  {
    hide AtRest;
    FirstSerialRests(|value|);
  }

  lemma {:induction false} SetSound(a: Area, name: string, value: string)
    requires Sound(a)
    ensures Sound(Set(a, name, value).0)
    decreases name != NET_CHANGE
  {
    hide PutValue, Sound, Accepts;
    if Accepts(a, name, value) {
      PutSound(a, name, value);
      var s := PutValue(a, name, value);
      if name != NET_CHANGE {
        if NET <= name {
          SetSound(s, NET_CHANGE, name);
          SoundLogs(Set(s, NET_CHANGE, name).0);
        }
        SoundLogs(s);
      }
    }
  }

  lemma SoundLogs(a: Area)
    requires Sound(a)
    ensures forall changes, writes :: Sound(a.(changes := changes, writes := writes))
  {
    hide SoundInfo, Unique;
  }

  // ----- the map it stands for

  function MapOf(props: seq<PropInfo>): map<string, string> {
    if props == [] then map[]
    else MapOf(props[..|props| - 1])[props[|props| - 1].name := props[|props| - 1].value]
  }

  lemma {:induction false} MapEntries(props: seq<PropInfo>)
    requires Unique(props)
    ensures forall n :: n in MapOf(props) <==> exists i :: 0 <= i < |props| && props[i].name == n
    ensures forall i :: 0 <= i < |props| ==> props[i].name in MapOf(props) && MapOf(props)[props[i].name] == props[i].value
    ensures |MapOf(props)| == |props|
  {
    if props != [] {
      var init, last := props[..|props| - 1], props[|props| - 1];
      MapEntries(init);
      assert props == init + [last];
      assert MapOf(props) == MapOf(init)[last.name := last.value];
      OneEntry(MapOf(init), init, last);
    }
  }

  lemma OneEntry(m: map<string, string>, init: seq<PropInfo>, last: PropInfo)
    requires Unique(init + [last]) && |m| == |init|
    requires forall n :: n in m <==> exists i :: 0 <= i < |init| && init[i].name == n
    requires forall i :: 0 <= i < |init| ==> init[i].name in m && m[init[i].name] == init[i].value
    ensures var props, m' := init + [last], m[last.name := last.value];
            && (forall n :: n in m' <==> exists i :: 0 <= i < |props| && props[i].name == n)
            && (forall i :: 0 <= i < |props| ==> props[i].name in m' && m'[props[i].name] == props[i].value)
            && |m'| == |props|
  {
    var props, m' := init + [last], m[last.name := last.value];
    assert props[|init|] == last && forall i :: 0 <= i < |init| ==> props[i] == init[i];
    OneKey(m, last.name, last.value);
    forall n ensures n in m' <==> exists i :: 0 <= i < |props| && props[i].name == n {
      LongerNames(init, last, n);
    }
  }

  lemma OneKey(m: map<string, string>, name: string, value: string)
    requires name !in m
    ensures |m[name := value]| == |m| + 1
  {
    var m' := m[name := value];
    assert m'.Keys == m.Keys + {name};
    assert |m'| == |m'.Keys| && |m| == |m.Keys|;
  }

  lemma LongerNames(init: seq<PropInfo>, last: PropInfo, n: string)
    ensures (exists i :: 0 <= i < |init + [last]| && (init + [last])[i].name == n) <==>
            n == last.name || exists i :: 0 <= i < |init| && init[i].name == n
  {
    var props := init + [last];
    assert props[|init|] == last;
    if i :| 0 <= i < |init| && init[i].name == n {
      assert props[i].name == n;
    }
    if i :| 0 <= i < |props| && props[i].name == n {
      assert i < |init| ==> init[i] == props[i];
    }
  }

  /** A set is refused by what the map and its size say alone. */
  predicate MapAccepts(m: map<string, string>, name: string, value: string) {
    && 1 <= |name| < PROP_NAME_MAX && |value| < PROP_VALUE_MAX
    && if name in m then !(RO <= name) else |m| < PA_COUNT_MAX
  }

  lemma AcceptsByMap(a: Area, name: string, value: string)
    requires Sound(a)
    ensures Accepts(a, name, value) <==> MapAccepts(MapOf(a.props), name, value)
  {
    hide FindIndex, SoundInfo, Unique, MapOf;
    assert Unique(a.props);
    MapEntries(a.props);
    var i := FindIndex(a.props, name);
    if i != -1 {
      assert a.props[i].name == name;
    }
  }

  lemma PutMaps(a: Area, name: string, value: string)
    requires Sound(a) && Accepts(a, name, value)
    ensures MapOf(PutValue(a, name, value).props) == MapOf(a.props)[name := value]
  {
    hide FindIndex, SoundInfo, Updated, MapOf;
    var i, s := FindIndex(a.props, name), PutValue(a, name, value);
    if i == -1 {
      AppendMaps(a.props, PropInfo(name, |value| * LOW, value));
    } else {
      PutSound(a, name, value);
      assert Unique(a.props) && Unique(s.props);
      NameStays(a.props[i], value);
      ReplaceMaps(a.props, i, s.props[i]);
    }
  }

  lemma AppendMaps(props: seq<PropInfo>, p: PropInfo)
    ensures MapOf(props + [p]) == MapOf(props)[p.name := p.value]
  {
    assert (props + [p])[..|props|] == props;
  }

  lemma {:induction false} ReplaceMaps(props: seq<PropInfo>, i: nat, p: PropInfo)
    requires i < |props| && Unique(props) && p.name == props[i].name
    ensures MapOf(props[i := p]) == MapOf(props)[p.name := p.value]
  {
    var n := |props| - 1;
    var init, last, now := props[..n], props[n], props[i := p];
    if i == n {
      assert now[..n] == init;
      assert MapOf(init)[last.name := last.value][p.name := p.value] == MapOf(init)[p.name := p.value];
    } else {
      assert now[..n] == init[i := p];
      ReplaceMaps(init, i, p);
      assert MapOf(init)[p.name := p.value][last.name := last.value]
          == MapOf(init)[last.name := last.value][p.name := p.value];
    }
  }

  /** What a set does to the map. */
  function MapSet(m: map<string, string>, name: string, value: string): (r: (map<string, string>, bool)) {
    if !MapAccepts(m, name, value) then (m, false)
    else
      var s := m[name := value];
      if NET <= name && name != NET_CHANGE && MapAccepts(s, NET_CHANGE, name) then (s[NET_CHANGE := name], true)
      else (s, true)
  }

  /** The table refines the map, and reports the same result. */
  lemma SetRefines(a: Area, name: string, value: string)
    requires Sound(a)
    ensures var (s, ok) := Set(a, name, value);
            (MapOf(s.props), ok) == MapSet(MapOf(a.props), name, value)
  {
    hide PutValue, Sound, Accepts, MapAccepts, MapOf;
    AcceptsByMap(a, name, value);
    if Accepts(a, name, value) {
      PutMaps(a, name, value);
      PutSound(a, name, value);
      var s := PutValue(a, name, value);
      if name != NET_CHANGE && NET <= name {
        AcceptsByMap(s, NET_CHANGE, name);
        if Accepts(s, NET_CHANGE, name) {
          PutMaps(s, NET_CHANGE, name);
        }
      }
    }
  }

  // ----- sequences of sets

  function Run(a: Area, sets: seq<(string, string)>): Area
    decreases |sets|
  {
    if sets == [] then a else Run(Set(a, sets[0].0, sets[0].1).0, sets[1..])
  }

  function MapRun(m: map<string, string>, sets: seq<(string, string)>): map<string, string>
    decreases |sets|
  {
    if sets == [] then m else MapRun(MapSet(m, sets[0].0, sets[0].1).0, sets[1..])
  }

  /** Over any sequence of sets the table stays sound and stands for the map. */
  lemma {:induction false} RunRefines(a: Area, sets: seq<(string, string)>)
    requires Sound(a)
    ensures Sound(Run(a, sets)) && MapOf(Run(a, sets).props) == MapRun(MapOf(a.props), sets)
    decreases |sets|
  {
    hide Sound, Set, MapSet, MapOf;
    if sets != [] {
      SetSound(a, sets[0].0, sets[0].1);
      SetRefines(a, sets[0].0, sets[0].1);
      RunRefines(Set(a, sets[0].0, sets[0].1).0, sets[1..]);
    }
  }

  /** No sequence of sets changes or removes a read-only property. */
  lemma {:induction false} ReadOnlyStays(m: map<string, string>, sets: seq<(string, string)>, name: string)
    requires name in m && RO <= name
    ensures name in MapRun(m, sets) && MapRun(m, sets)[name] == m[name]
    decreases |sets|
  {
    if sets != [] {
      assert NET_CHANGE[0] == 'n' && name[0] == RO[0] == 'r';
      ReadOnlyStays(MapSet(m, sets[0].0, sets[0].1).0, sets[1..], name);
    }
  }

  /** The stores one set makes: none if refused, and one more to note a changed net name. */
  function Stores(m: map<string, string>, name: string, value: string): seq<(string, string)> {
    if !MapAccepts(m, name, value) then []
    else if NET <= name && name != NET_CHANGE && MapAccepts(m[name := value], NET_CHANGE, name)
    then [(name, value), (NET_CHANGE, name)]
    else [(name, value)]
  }

  function History(m: map<string, string>, sets: seq<(string, string)>): seq<(string, string)>
    decreases |sets|
  {
    if sets == [] then []
    else Stores(m, sets[0].0, sets[0].1) + History(MapSet(m, sets[0].0, sets[0].1).0, sets[1..])
  }

  function LastOf(history: seq<(string, string)>, name: string): Option<string> {
    if history == [] then None
    else
      var last := history[|history| - 1];
      if last.0 == name then Some(last.1) else LastOf(history[..|history| - 1], name)
  }

  function Get(m: map<string, string>, name: string): Option<string> {
    if name in m then Some(m[name]) else None
  }

  /** _property_get: a name that is too long is not found. */
  function Lookup(m: map<string, string>, name: string): Option<string> {
    if |name| >= PROP_NAME_MAX then None else Get(m, name)
  }

  lemma {:induction false} LastOfAppend(x: seq<(string, string)>, y: seq<(string, string)>, name: string)
    ensures LastOf(x + y, name) == if LastOf(y, name).Some? then LastOf(y, name) else LastOf(x, name)
  {
    if y == [] {
      assert x + y == x;
    } else {
      assert (x + y)[..|x + y| - 1] == x + y[..|y| - 1];
      LastOfAppend(x, y[..|y| - 1], name);
    }
  }

  lemma LastOfOne(one: (string, string), n: string)
    ensures LastOf([one], n) == if one.0 == n then Some(one.1) else None
  {
    assert [one][..0] == [];
  }

  lemma StoresApply(m: map<string, string>, name: string, value: string, n: string)
    ensures var last := LastOf(Stores(m, name, value), n);
            Get(MapSet(m, name, value).0, n) == if last.Some? then last else Get(m, n)
  {
    hide MapAccepts;
    var one, two := (name, value), (NET_CHANGE, name);
    LastOfOne(one, n);
    LastOfOne(two, n);
    LastOfAppend([one], [two], n);
    assert [one, two] == [one] + [two];
  }

  /** After any sequence of sets a property has the value of the last set that was accepted,
      or the one it had before. */
  lemma {:induction false} GetIsLast(m: map<string, string>, sets: seq<(string, string)>, n: string)
    ensures var last := LastOf(History(m, sets), n);
            Get(MapRun(m, sets), n) == if last.Some? then last else Get(m, n)
    decreases |sets|
  {
    hide MapSet, Stores, Get, LastOf;
    if sets == [] {
      NoHistory(m, n);
    } else {
      var (name, value) := sets[0];
      var s := MapSet(m, name, value).0;
      StoresApply(m, name, value, n);
      GetIsLast(s, sets[1..], n);
      LastOfAppend(Stores(m, name, value), History(s, sets[1..]), n);
    }
  }

  lemma NoHistory(m: map<string, string>, n: string)
    ensures LastOf(History(m, []), n) == None
  {
  }

  /** An accepted change of a net name is noted exactly if the note exists already or fits. */
  lemma NetChangeNoted(m: map<string, string>, name: string, value: string)
    requires MapAccepts(m, name, value) && NET <= name && name != NET_CHANGE
    ensures var s := MapSet(m, name, value).0;
            NET_CHANGE in s && s[NET_CHANGE] == name <==>
              NET_CHANGE in m || |m[name := value]| < PA_COUNT_MAX
  {
    assert NET_CHANGE[0] == 'n' && RO[0] == 'r';
  }

  // ----- what a set is refused for, and what it makes known

  /** Refused exactly for a name that is empty or has 32 characters or more, a value of 92 or more, a
      property that is there and read-only, or a table of 247 without one of that name. */
  lemma RefusedExactly(a: Area, name: string, value: string)
    requires Sound(a)
    ensures !Set(a, name, value).1 <==>
      || name == "" || |name| >= 32 || |value| >= 92
      || if name in MapOf(a.props) then "ro." <= name else |MapOf(a.props)| == 247
  {
    hide Accepts, Sound, MapOf;
    AcceptsByMap(a, name, value);
    SizeIsCount(a);
  }

  lemma SizeIsCount(a: Area)
    requires Sound(a)
    ensures |MapOf(a.props)| == |a.props| <= PA_COUNT_MAX
  {
    hide MapOf, SoundInfo;
    MapEntries(a.props);
  }

  /** The changes that sets make known: each that was accepted, once, in order, but those of the note. */
  function Known(m: map<string, string>, sets: seq<(string, string)>): seq<(string, string)>
    decreases |sets|
  {
    if sets == [] then []
    else
      (if MapAccepts(m, sets[0].0, sets[0].1) && sets[0].0 != "net.change" then [sets[0]] else [])
      + Known(MapSet(m, sets[0].0, sets[0].1).0, sets[1..])
  }

  /** The writes to disk that sets ask for: each that was accepted of a persistent name. */
  function Persisted(m: map<string, string>, sets: seq<(string, string)>): seq<(string, string)>
    decreases |sets|
  {
    if sets == [] then []
    else
      (if MapAccepts(m, sets[0].0, sets[0].1) && "persist." <= sets[0].0 then [sets[0]] else [])
      + Persisted(MapSet(m, sets[0].0, sets[0].1).0, sets[1..])
  }

  lemma SetMakesKnown(a: Area, name: string, value: string)
    requires Sound(a)
    ensures var (s, ok) := Set(a, name, value);
            && s.changes == (if ok && name != "net.change" then a.changes + [(name, value)] else a.changes)
            && s.writes == (if ok && a.loaded && "persist." <= name then a.writes + [(name, value)] else a.writes)
            && s.serial == (a.serial + |Stores(MapOf(a.props), name, value)|) % 0x1_0000_0000 && s.loaded == a.loaded
  {
    hide PutValue, Sound, Accepts, MapAccepts, MapOf;
    AcceptsByMap(a, name, value);
    assert "persist."[0] == 'p' && NET[0] == 'n' && NET <= NET_CHANGE;
    if Accepts(a, name, value) {
      PutLeaves(a, name, value);
      PutMaps(a, name, value);
      PutSound(a, name, value);
      var s := PutValue(a, name, value);
      AcceptsByMap(s, NET_CHANGE, name);
      if Accepts(s, NET_CHANGE, name) {
        PutLeaves(s, NET_CHANGE, name);
      }
    } else {
      assert a.serial % 0x1_0000_0000 == a.serial;
    }
  }

  lemma PutLeaves(a: Area, name: string, value: string)
    requires Accepts(a, name, value)
    ensures var s := PutValue(a, name, value);
            && s.changes == a.changes && s.writes == a.writes && s.loaded == a.loaded
            && s.serial == (a.serial + 1) % 0x1_0000_0000
  {
  }

  /** Over any sequence of sets: what was made known, what was written, and how far the serial of the
      area went on. */
  lemma {:induction false} RunMakesKnown(a: Area, sets: seq<(string, string)>)
    requires Sound(a)
    ensures var s, m := Run(a, sets), MapOf(a.props);
            && s.changes == a.changes + Known(m, sets)
            && s.writes == a.writes + (if a.loaded then Persisted(m, sets) else [])
            && s.serial == (a.serial + |History(m, sets)|) % 0x1_0000_0000
    decreases |sets|
  {
    hide Sound, Set, MapSet, MapOf, MapAccepts, Stores;
    var m := MapOf(a.props);
    if sets == [] {
      assert a.changes + [] == a.changes && a.writes + [] == a.writes && a.serial % 0x1_0000_0000 == a.serial;
    } else {
      var (name, value) := sets[0];
      var s := Set(a, name, value).0;
      SetSound(a, name, value);
      SetRefines(a, name, value);
      AcceptedByMap(m, name, value);
      SetMakesKnown(a, name, value);
      RunMakesKnown(s, sets[1..]);
      var rest := MapSet(m, name, value).0;
      Associate(a.changes, if MapAccepts(m, name, value) && name != "net.change" then [sets[0]] else [], Known(rest, sets[1..]));
      Associate(a.writes, if MapAccepts(m, name, value) && "persist." <= name then [sets[0]] else [], Persisted(rest, sets[1..]));
      assert a.changes + [] == a.changes && a.writes + [] == a.writes;
      AddTwice(a.serial, |Stores(m, name, value)|, |History(rest, sets[1..])|);
    }
  }

  lemma AcceptedByMap(m: map<string, string>, name: string, value: string)
    ensures MapSet(m, name, value).1 == MapAccepts(m, name, value)
  {
  }

  lemma AddTwice(x: nat, y: nat, z: nat)
    ensures ((x + y) % 0x1_0000_0000 + z) % 0x1_0000_0000 == (x + (y + z)) % 0x1_0000_0000
  {
    var q, r := (x + y) / 0x1_0000_0000, (x + y) % 0x1_0000_0000;
    assert x + (y + z) == r + z + q * 0x1_0000_0000;
  }
}
