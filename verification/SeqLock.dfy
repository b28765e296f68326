/** Reading a property while it is being written: the steps of one writer and one reader in any order. */
module SeqLock {
  import opened Bytes
  import opened Properties

  const NUL: char := '\0'

  /** The daemon between updates, or inside update_prop_info with k characters copied. */
  datatype Writer = Resting | Copying(value: string, k: nat)

  /** __system_property_read: not begun, with k characters copied since serial was read, or done. */
  datatype Reader = Away | Reading(serial: uint32, copy: string) | Returned(value: string)

  /** history: the values published so far; began and ended: how many there were when the reader
      read the serial for the first and for the last time. */
  datatype State = State(
    serial: uint32, memory: string, writer: Writer, reader: Reader,
    history: seq<string>, began: nat, ended: nat)

  datatype Step =
    | BeginUpdate(value: string) | CopyIn | EndUpdate
    | BeginRead | CopyOut | EndRead

  /** A value as it is copied, with its terminator. */
  function Stored(value: string): string {
    value + [NUL]
  }

  predicate Fits(value: string) {
    |value| < PROP_VALUE_MAX && NUL !in value
  }

  /** Steps of the wrong moment change nothing. */
  function Next(s: State, step: Step): State
    requires WriterOk(s)
  {
    match step
    case BeginUpdate(value) =>
      if s.writer.Resting? && Fits(value) then
        s.(writer := Copying(value, 0), serial := Dirty(s.serial))
      else s
    case CopyIn =>
      if s.writer.Copying? && s.writer.k < |Stored(s.writer.value)| then
        var k := s.writer.k;
        s.(memory := s.memory[k := Stored(s.writer.value)[k]], writer := Copying(s.writer.value, k + 1))
      else s
    case EndUpdate =>
      if s.writer.Copying? && s.writer.k == |Stored(s.writer.value)| then
        s.(writer := Resting, serial := Publish(s.serial, |s.writer.value|), history := s.history + [s.writer.value])
      else s
    case BeginRead =>
      if s.reader.Away? && s.serial % 2 == 0 then
        s.(reader := Reading(s.serial, ""), began := |s.history|)
      else s
    case CopyOut =>
      if s.reader.Reading? && |s.reader.copy| <= s.reader.serial / LOW && |s.reader.copy| < PROP_VALUE_MAX then
        s.(reader := Reading(s.reader.serial, s.reader.copy + [s.memory[|s.reader.copy|]]))
      else s
    case EndRead =>
      if s.reader.Reading? && |s.reader.copy| == s.reader.serial / LOW + 1 then
        s.(ended := |s.history|,
           reader := if s.serial == s.reader.serial then Returned(s.reader.copy[..s.reader.serial / LOW]) else Away)
      else s
  }

  /** At rest with one published value. */
  predicate Initial(s: State) {
    && |s.memory| == PROP_VALUE_MAX && s.writer == Resting && s.reader == Away && |s.history| == 1
    && Fits(s.history[0]) && Stored(s.history[0]) <= s.memory && s.serial == |s.history[0]| * LOW
  }

  /** The low bits count the updates, twice, and one more inside an update. */
  function Count(s: State): nat {
    (2 * |s.history| - 2 + if s.writer.Copying? then 1 else 0) % LOW
  }

  predicate WriterOk(s: State) {
    && |s.memory| == PROP_VALUE_MAX && |s.history| > 0
    && (forall j :: 0 <= j < |s.history| ==> Fits(s.history[j]))
    && s.serial % LOW == Count(s) && s.serial / LOW == |s.history[|s.history| - 1]|
    && match s.writer
       case Resting => Stored(s.history[|s.history| - 1]) <= s.memory
       case Copying(value, k) => Fits(value) && k <= |Stored(value)| && s.memory[..k] == Stored(value)[..k]
  }

  /** Updates after which the low bits of the serial are the same again. */
  const WRAP: nat := 0x80_0000

  /** The reader has seen nothing but the value it began with, unless an update has begun since. */
  predicate ReaderOk(s: State) {
    match s.reader
    case Away => true
    case Reading(serial, copy) =>
      && 0 < s.began <= |s.history|
      && serial == |s.history[s.began - 1]| * LOW + (2 * s.began - 2) % LOW
      && |copy| <= |s.history[s.began - 1]| + 1
      && (s.began == |s.history| && s.writer.Resting? ==> copy <= Stored(s.history[s.began - 1]))
    case Returned(value) =>
      && 0 < s.began <= s.ended <= |s.history| && (s.ended - s.began) % WRAP == 0
      && (s.began == s.ended ==> value == s.history[s.began - 1])
  }

  function Run(s: State, steps: seq<Step>): State
    requires WriterOk(s)
    decreases |steps|
  {
    if steps == [] then s
    else
      WriterKeeps(s, steps[0]);
      Run(Next(s, steps[0]), steps[1..])
  }

  // ----- the writer

  lemma CountSteps(n: nat)
    ensures (2 * n % LOW) % 2 == 0
    ensures (2 * n + 1) % LOW == 2 * n % LOW + 1
    ensures (2 * n % LOW + 2) % LOW == (2 * n + 2) % LOW
  {
    EvenMod(2 * n);
    var q, r := 2 * n / LOW, 2 * n % LOW;
    assert 2 * n == LOW * q + r && r + 1 < LOW;
    RemainderIs(2 * n + 1, q, r + 1);
    if r + 2 < LOW {
      RemainderIs(2 * n + 2, q, r + 2);
    } else {
      RemainderIs(2 * n + 2, q + 1, 0);
    }
  }

  lemma RemainderIs(x: nat, q: nat, r: nat)
    requires r < LOW && x == LOW * q + r
    ensures x % LOW == r
  {
  }

  /** A serial is determined by its length and its low bits. */
  lemma SerialIs(serial: uint32)
    ensures serial == serial / LOW * LOW + serial % LOW && serial % 2 == serial % LOW % 2
  {
    var q := serial / LOW;
    assert serial == LOW * q + serial % LOW && LOW * q == 2 * (0x80_0000 * q);
  }

  lemma DirtyCounts(s: State, value: string)
    requires WriterOk(s) && s.writer.Resting? && Fits(value)
    ensures s.serial % 2 == 0 && Dirty(s.serial) == s.serial + 1
    ensures WriterOk(s.(writer := Copying(value, 0), serial := Dirty(s.serial)))
  {
    var n := |s.history| - 1;
    CountSteps(n);
    SerialIs(s.serial);
    assert s.serial + 1 == s.serial / LOW * LOW + (s.serial % LOW + 1);
    QuotientRemainder(s.serial / LOW, s.serial % LOW + 1);
  }

  lemma QuotientRemainder(q: nat, r: nat)
    requires r < LOW
    ensures (q * LOW + r) / LOW == q && (q * LOW + r) % LOW == r
  {
  }

  lemma PublishCounts(s: State)
    requires WriterOk(s) && s.writer.Copying? && s.writer.k == |Stored(s.writer.value)|
    ensures WriterOk(Next(s, EndUpdate))
  {
    var value := s.writer.value;
    NextLow(s.serial, 2 * |s.history| - 1);
    QuotientRemainder(|value|, (s.serial + 1) % LOW);
    assert s.memory[..|Stored(value)|] == Stored(value);
  }

  lemma NextLow(x: nat, y: nat)
    requires x % LOW == y % LOW
    ensures (x + 1) % LOW == (y + 1) % LOW
  {
    var p, r := Parts(x);
    var q, r' := Parts(y);
    if r + 1 < LOW {
      RemainderIs(x + 1, p, r + 1);
      RemainderIs(y + 1, q, r + 1);
    } else {
      RemainderIs(x + 1, p + 1, 0);
      RemainderIs(y + 1, q + 1, 0);
    }
  }

  /** Every step keeps the writer's side in order, whatever the reader does. */
  lemma WriterKeeps(s: State, step: Step)
    requires WriterOk(s)
    ensures WriterOk(Next(s, step))
  {
    hide Dirty, Publish;
    match step
    case BeginUpdate(value) => if s.writer.Resting? && Fits(value) { DirtyCounts(s, value); }
    case CopyIn =>
    case EndUpdate =>
      if s.writer.Copying? && s.writer.k == |Stored(s.writer.value)| { PublishCounts(s); }
    case BeginRead =>
    case CopyOut =>
    case EndRead =>
  }

  // ----- the reader

  /** The second look at the serial passes exactly if no update is under way, a multiple of 2^23
      updates were published since the first, and the last of them left a value of equal length. */
  lemma CheckPasses(s: State)
    requires WriterOk(s) && ReaderOk(s) && s.reader.Reading?
    ensures s.serial == s.reader.serial <==>
      s.writer.Resting? && (|s.history| - s.began) % WRAP == 0
      && |s.history[|s.history| - 1]| == |s.history[s.began - 1]|
  {
    hide Stored, Fits;
    var n, b := |s.history| - 1, s.began - 1;
    CountSteps(n);
    CountSteps(b);
    SameCount(n, b);
    SerialsEqual(s.serial, s.reader.serial, |s.history[b]|, 2 * b % LOW);
  }

  /** Serials are equal if their lengths and low bits are. */
  lemma SerialsEqual(x: uint32, y: uint32, length: nat, low: nat)
    requires low < LOW && y == length * LOW + low
    ensures x == y <==> x / LOW == length && x % LOW == low
  {
    SerialIs(x);
    QuotientRemainder(length, low);
  }

  lemma SameCount(n: nat, b: nat)
    requires b <= n
    ensures 2 * n % LOW == 2 * b % LOW <==> (n - b) % WRAP == 0
  {
    if (n - b) % WRAP == 0 {
      SameLow(n, b);
    }
    if 2 * n % LOW == 2 * b % LOW {
      SameHigh(n, b);
    }
  }

  lemma SameLow(n: nat, b: nat)
    requires b <= n && (n - b) % WRAP == 0
    ensures 2 * n % LOW == 2 * b % LOW
  {
    var k := WrapsIn(n - b);
    var q, r := Parts(2 * b);
    RemainderIs(2 * n, q + k, r);
  }

  lemma SameHigh(n: nat, b: nat)
    requires b <= n && 2 * n % LOW == 2 * b % LOW
    ensures (n - b) % WRAP == 0
  {
    var x, r := Parts(2 * n);
    var y, r' := Parts(2 * b);
    MultipleOf(n - b, x - y);
  }

  lemma WrapsIn(d: nat) returns (k: nat)
    requires d % WRAP == 0
    ensures d == WRAP * k
  {
    k := d / WRAP;
  }

  lemma Parts(x: nat) returns (q: nat, r: nat)
    ensures x == LOW * q + r && r < LOW && x % LOW == r
  {
    q, r := x / LOW, x % LOW;
  }

  lemma MultipleOf(d: nat, k: int)
    requires d == WRAP * k
    ensures d % WRAP == 0
  {
  }

  lemma ReaderBegins(s: State)
    requires WriterOk(s) && ReaderOk(s)
    ensures ReaderOk(Next(s, BeginRead))
  {
    var n := |s.history| - 1;
    CountSteps(n);
    SerialIs(s.serial);
  }

  lemma ReaderCopies(s: State)
    requires WriterOk(s) && ReaderOk(s)
    ensures ReaderOk(Next(s, CopyOut))
  {
    if s.reader.Reading? {
      QuotientRemainder(|s.history[s.began - 1]|, (2 * s.began - 2) % LOW);
    }
  }

  lemma ReaderEnds(s: State)
    requires WriterOk(s) && ReaderOk(s)
    ensures ReaderOk(Next(s, EndRead))
  {
    if s.reader.Reading? {
      QuotientRemainder(|s.history[s.began - 1]|, (2 * s.began - 2) % LOW);
      CheckPasses(s);
    }
  }

  lemma ReaderKeeps(s: State, step: Step)
    requires WriterOk(s) && ReaderOk(s)
    ensures ReaderOk(Next(s, step))
  {
    hide Dirty, Publish;
    match step
    case BeginRead => ReaderBegins(s);
    case CopyOut => ReaderCopies(s);
    case EndRead => ReaderEnds(s);
    case BeginUpdate(_) =>
    case CopyIn =>
    case EndUpdate =>
  }

  lemma {:induction false} RunKeeps(s: State, steps: seq<Step>)
    requires WriterOk(s) && ReaderOk(s)
    ensures WriterOk(Run(s, steps)) && ReaderOk(Run(s, steps))
    decreases |steps|
  {
    hide Next, WriterOk, ReaderOk;
    if steps != [] {
      WriterKeeps(s, steps[0]);
      ReaderKeeps(s, steps[0]);
      RunKeeps(Next(s, steps[0]), steps[1..]);
    }
  }

  lemma InitialOk(s: State)
    requires Initial(s)
    ensures WriterOk(s) && ReaderOk(s)
  {
    QuotientRemainder(|s.history[0]|, 0);
  }

  /** In every interleaving of one writer and one reader, a read during which fewer than 2^23
      updates were published returns a value whole, and it was the current one all along. */
  lemma ReadsAreWhole(s: State, steps: seq<Step>)
    requires WriterOk(s) && s.reader.Away?
    ensures var r := Run(s, steps);
            r.reader.Returned? && r.ended < r.began + WRAP ==>
              0 < r.began == r.ended <= |r.history| && r.reader.value == r.history[r.began - 1]
  {
    hide Run, WriterOk;
    RunKeeps(s, steps);
  }

  /** From a property just created on. */
  lemma FreshReadsAreWhole(s: State, steps: seq<Step>)
    requires Initial(s)
    ensures WriterOk(s)
    ensures var r := Run(s, steps);
            r.reader.Returned? && r.ended < r.began + WRAP ==>
              0 < r.began == r.ended <= |r.history| && r.reader.value == r.history[r.began - 1]
  {
    InitialOk(s);
    ReadsAreWhole(s, steps);
  }

  // ----- without interference

  function Repeat(step: Step, n: nat): seq<Step> {
    if n == 0 then [] else [step] + Repeat(step, n - 1)
  }

  lemma RunFirst(s: State, step: Step, rest: seq<Step>)
    requires WriterOk(s)
    ensures WriterOk(Next(s, step)) && Run(s, [step] + rest) == Run(Next(s, step), rest)
  {
    hide Next, WriterOk;
    WriterKeeps(s, step);
    assert ([step] + rest)[1..] == rest;
  }

  lemma {:induction false} CopiesOut(s: State, n: nat)
    requires WriterOk(s) && ReaderOk(s) && s.writer.Resting? && s.reader.Reading? && s.began == |s.history|
    requires |s.reader.copy| + n == |s.history[s.began - 1]| + 1
    ensures Run(s, Repeat(CopyOut, n) + [EndRead]).reader == Returned(s.history[s.began - 1])
    decreases n
  {
    hide Run;
    QuotientRemainder(|s.history[s.began - 1]|, (2 * s.began - 2) % LOW);
    if n == 0 {
      assert [] + [EndRead] == [EndRead] + [];
      CheckPasses(s);
      RunFirst(s, EndRead, []);
      RunNothing(Next(s, EndRead));
    } else {
      assert Repeat(CopyOut, n) + [EndRead] == [CopyOut] + (Repeat(CopyOut, n - 1) + [EndRead]);
      RunFirst(s, CopyOut, Repeat(CopyOut, n - 1) + [EndRead]);
      ReaderKeeps(s, CopyOut);
      CopiesOut(Next(s, CopyOut), n - 1);
    }
  }

  lemma RunNothing(s: State)
    requires WriterOk(s)
    ensures Run(s, []) == s
  {
  }

  /** A read that no update disturbs succeeds at once. */
  lemma QuietRead(s: State)
    requires WriterOk(s) && s.writer.Resting? && s.reader.Away?
    ensures var v := s.history[|s.history| - 1];
            Run(s, [BeginRead] + (Repeat(CopyOut, |v| + 1) + [EndRead])).reader == Returned(v)
  {
    hide Run;
    var v := s.history[|s.history| - 1];
    CountSteps(|s.history| - 1);
    SerialIs(s.serial);
    RunFirst(s, BeginRead, Repeat(CopyOut, |v| + 1) + [EndRead]);
    ReaderKeeps(s, BeginRead);
    CopiesOut(Next(s, BeginRead), |v| + 1);
  }

  lemma {:induction false} CopiesIn(s: State, n: nat)
    requires WriterOk(s) && s.writer.Copying? && s.writer.k + n == |s.writer.value| + 1
    ensures var r := Run(s, Repeat(CopyIn, n) + [EndUpdate]);
            && r.serial == Publish(s.serial, |s.writer.value|) && r.writer.Resting?
            && r.history == s.history + [s.writer.value] && r.reader == s.reader
    decreases n
  {
    hide Run, Publish, WriterOk;
    if n == 0 {
      assert [] + [EndUpdate] == [EndUpdate] + [];
      RunFirst(s, EndUpdate, []);
      RunNothing(Next(s, EndUpdate));
    } else {
      assert Repeat(CopyIn, n) + [EndUpdate] == [CopyIn] + (Repeat(CopyIn, n - 1) + [EndUpdate]);
      RunFirst(s, CopyIn, Repeat(CopyIn, n - 1) + [EndUpdate]);
      CopiesIn(Next(s, CopyIn), n - 1);
    }
  }

  /** The steps of an update together are the update of the store. */
  lemma QuietUpdate(s: State, p: PropInfo, value: string)
    requires WriterOk(s) && s.writer.Resting? && Fits(value) && p.serial == s.serial
    ensures var r := Run(s, [BeginUpdate(value)] + (Repeat(CopyIn, |value| + 1) + [EndUpdate]));
            && r.serial == Updated(p, value).serial && r.history == s.history + [Updated(p, value).value]
  {
    hide Run, Publish, Dirty, WriterOk;
    RunFirst(s, BeginUpdate(value), Repeat(CopyIn, |value| + 1) + [EndUpdate]);
    CopiesIn(Next(s, BeginUpdate(value)), |value| + 1);
  }

  // ----- the bound is exact

  lemma {:induction false} RunOn(s: State, first: seq<Step>, rest: seq<Step>)
    requires WriterOk(s)
    ensures WriterOk(Run(s, first)) && Run(s, first + rest) == Run(Run(s, first), rest)
    decreases |first|
  {
    hide Next, WriterOk;
    if first == [] {
      assert first + rest == rest;
    } else {
      WriterKeeps(s, first[0]);
      assert (first + rest)[0] == first[0] && (first + rest)[1..] == first[1..] + rest;
      RunOn(Next(s, first[0]), first[1..], rest);
    }
  }

  function Update(value: string): seq<Step> {
    [BeginUpdate(value)] + (Repeat(CopyIn, |value| + 1) + [EndUpdate])
  }

  function Updates(value: string, n: nat): seq<Step> {
    if n == 0 then [] else Update(value) + Updates(value, n - 1)
  }

  predicate OfWriter(steps: seq<Step>) {
    forall i :: 0 <= i < |steps| ==> !steps[i].BeginRead? && !steps[i].CopyOut? && !steps[i].EndRead?
  }

  /** The writer's steps change nothing the reader has. */
  lemma {:induction false} ReaderWaits(s: State, steps: seq<Step>)
    requires WriterOk(s) && OfWriter(steps)
    ensures var r := Run(s, steps); r.reader == s.reader && r.began == s.began && r.ended == s.ended
    decreases |steps|
  {
    hide WriterOk, Dirty, Publish;
    if steps != [] {
      WriterKeeps(s, steps[0]);
      ReaderWaits(Next(s, steps[0]), steps[1..]);
    }
  }

  lemma {:induction false} UpdatesOfWriter(value: string, n: nat)
    ensures OfWriter(Updates(value, n))
  {
    if n > 0 {
      CopiesOfWriter(|value| + 1);
      assert OfWriter(Update(value));
      UpdatesOfWriter(value, n - 1);
    }
  }

  lemma {:induction false} CopiesOfWriter(n: nat)
    ensures OfWriter(Repeat(CopyIn, n))
  {
    if n > 0 {
      CopiesOfWriter(n - 1);
    }
  }

  lemma {:induction false} ManyUpdates(s: State, value: string, n: nat)
    requires WriterOk(s) && s.writer.Resting? && Fits(value)
    ensures var r := Run(s, Updates(value, n));
            WriterOk(r) && r.writer.Resting? && r.history == s.history + seq(n, _ => value)
    decreases n
  {
    hide Run, Publish, Dirty, WriterOk, Fits;
    RunOn(s, Updates(value, n), []);
    if n == 0 {
      RunNothing(s);
      assert s.history + seq(0, _ => value) == s.history;
    } else {
      RunFirst(s, BeginUpdate(value), Repeat(CopyIn, |value| + 1) + [EndUpdate]);
      CopiesIn(Next(s, BeginUpdate(value)), |value| + 1);
      RunOn(s, Update(value), Updates(value, n - 1));
      var u := Run(s, Update(value));
      assert u.history == s.history + [value];
      ManyUpdates(u, value, n - 1);
      assert s.history + [value] + seq(n - 1, _ => value) == s.history + seq(n, _ => value);
    }
  }

  /** One character of "ab" is read, then 2^23 updates to "cd" come in between, then the rest. */
  function TornSteps(): seq<Step> {
    [BeginRead, CopyOut] + (Updates("cd", WRAP) + [CopyOut, CopyOut, EndRead])
  }

  /** With as many updates as the bound, a read can return what never was a value of the property. */
  lemma TornRead(s: State)
    requires Initial(s) && s.history[0] == "ab"
    ensures WriterOk(s)
    ensures var r := Run(s, TornSteps());
            r.reader == Returned("ad") && r.ended == r.began + WRAP && "ad" !in r.history
  {
    hide Run, Updates, WriterOk;
    InitialOk(s);
    var first, last := [BeginRead, CopyOut], [CopyOut, CopyOut, EndRead];
    RunOn(s, first, Updates("cd", WRAP) + last);
    var u := Run(s, first);
    TornStart(s);
    RunOn(u, Updates("cd", WRAP), last);
    var v := Run(u, Updates("cd", WRAP));
    ManyUpdates(u, "cd", WRAP);
    UpdatesOfWriter("cd", WRAP);
    ReaderWaits(u, Updates("cd", WRAP));
    TornEnd(v);
  }

  lemma TornStart(s: State)
    requires Initial(s) && s.history[0] == "ab" && WriterOk(s)
    ensures var u := Run(s, [BeginRead, CopyOut]);
            && WriterOk(u) && u.writer.Resting? && u.history == ["ab"] && u.began == 1
            && u.reader == Reading(2 * LOW, "a")
  {
    hide WriterOk, Run;
    RunFirst(s, BeginRead, [CopyOut]);
    var t := Next(s, BeginRead);
    RunFirst(t, CopyOut, []);
    RunNothing(Next(t, CopyOut));
    assert [BeginRead] + [CopyOut] == [BeginRead, CopyOut] && [CopyOut] + [] == [CopyOut];
    assert s.serial == 2 * LOW && s.serial % 2 == 0 && s.history == ["ab"];
    assert s.memory[0] == Stored("ab")[0] == 'a';
    assert [] + ['a'] == "a";
  }

  lemma TornEnd(v: State)
    requires WriterOk(v) && v.writer.Resting? && v.history == ["ab"] + seq(WRAP, _ => "cd") && v.began == 1
    requires v.reader == Reading(2 * LOW, "a")
    ensures var r := Run(v, [CopyOut, CopyOut, EndRead]);
            r.reader == Returned("ad") && r.ended == 1 + WRAP && r.began == 1 && r.history == v.history
            && "ad" !in r.history
  {
    hide WriterOk, Run;
    assert v.serial == 2 * LOW && v.memory[1] == 'd' && v.memory[2] == NUL && |v.memory| == PROP_VALUE_MAX by {
      LastIsCurrent(v);
    }
    assert [CopyOut] + [CopyOut, EndRead] == [CopyOut, CopyOut, EndRead] && [CopyOut] + [EndRead] == [CopyOut, EndRead];
    assert [EndRead] + [] == [EndRead];
    RunFirst(v, CopyOut, [CopyOut, EndRead]);
    var x := Next(v, CopyOut);
    assert "a" + ['d'] == "ad";
    RunFirst(x, CopyOut, [EndRead]);
    var y := Next(x, CopyOut);
    RunFirst(y, EndRead, []);
    RunNothing(Next(y, EndRead));
    assert ("ad" + [NUL])[..2] == "ad";
  }

  lemma LastIsCurrent(v: State)
    requires WriterOk(v) && v.writer.Resting? && v.history == ["ab"] + seq(WRAP, _ => "cd")
    ensures v.serial == 2 * LOW && v.memory[1] == 'd' && v.memory[2] == NUL && |v.memory| == PROP_VALUE_MAX
  {
    assert v.history[|v.history| - 1] == "cd" && |v.history| == 1 + WRAP;
    assert Stored("cd") == ['c', 'd', NUL] && Stored("cd") <= v.memory;
    assert (2 * WRAP) % LOW == 0;
    SerialIs(v.serial);
  }
}
