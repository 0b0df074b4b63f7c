/**
 * Utils.py: the pickle cache under the per-application cache directory,
 * the status filter over the bridge's device tracker, the rows of the
 * "show" table, and the progress-bar column whose text can be replaced.
 */
module Utils {
  import opened Wrappers
  import opened PyStr

  // ---------------------------------------------------------------------
  // Cache files (cache_save / cache_recall / clear)
  // ---------------------------------------------------------------------

  /** One pickled object: every caller stores a list of "ip:port" strings. */
  type Snapshot = seq<string>

  /** One `<name>.pkl` file: absent, or the objects dumped into it, oldest first. */
  type CacheFile = Option<seq<Snapshot>>

  /** `set(obj)`: the elements of a list, duplicates collapsed. */
  function SetOf(s: seq<string>): set<string> {
    set x | x in s
  }

  lemma {:induction false} SetOfSize(s: seq<string>)
    ensures |SetOf(s)| <= |s|
  {
    if s != [] {
      SetOfSize(s[1..]);
      assert SetOf(s) == {s[0]} + SetOf(s[1..]);
    }
  }

  /** A file that exists holds at least one pickled object. */
  predicate WellFormed(f: CacheFile) {
    f.Some? ==> |f.value| > 0
  }

  /**
   * `cache_save(name, obj)` on the file: mode `'wb'` when the file is
   * absent, `'ab'` when it exists, so earlier content is never replaced.
   */
  function SavedFile(f: CacheFile, obj: Snapshot): (g: CacheFile)
    ensures WellFormed(g) && g.Some?
    ensures g.value[|g.value| - 1] == obj
    ensures f.None? ==> g.value == [obj]
    ensures f.Some? ==> |g.value| == |f.value| + 1 && g.value[..|f.value|] == f.value
  {
    match f
    case None => Some([obj])
    case Some(objs) => Some(objs + [obj])
  }

  /**
   * `cache_recall(name)` on the file: a missing file ends the process
   * (`sys.exit()`), here `None`; otherwise `pickle.load` reads only the
   * first object, which is turned into a set.
   */
  function RecalledSet(f: CacheFile): (r: Option<set<string>>)
    requires WellFormed(f)
    ensures r.None? <==> f.None?
    ensures r.Some? ==> forall x :: x in r.value <==> x in f.value[0]
  {
    match f
    case None => None
    case Some(objs) => Some(SetOf(objs[0]))
  }

  /** Several saves in a row. */
  function SavedAll(f: CacheFile, objs: seq<Snapshot>): (g: CacheFile)
    ensures WellFormed(f) ==> WellFormed(g)
    decreases |objs|
  {
    if objs == [] then f else SavedAll(SavedFile(f, objs[0]), objs[1..])
  }

  /** A save never changes what is stored first in an existing file. */
  lemma {:induction false} SavedAllKeepsFirst(f: CacheFile, objs: seq<Snapshot>)
    requires f.Some? && |f.value| > 0
    ensures SavedAll(f, objs).Some?
    ensures SavedAll(f, objs).value[0] == f.value[0]
    decreases |objs|
  {
    if objs != [] {
      SavedAllKeepsFirst(SavedFile(f, objs[0]), objs[1..]);
    }
  }

  /**
   * The quirk of the append-mode cache: after the file is created by a
   * save of `first`, any number of later saves leave recall unchanged.
   */
  lemma {:induction false} LaterSavesInvisible(first: Snapshot, later: seq<Snapshot>)
    ensures RecalledSet(SavedAll(None, [first] + later)) == Some(SetOf(first))
  {
    assert ([first] + later)[1..] == later;
    SavedAllKeepsFirst(SavedFile(None, first), later);
  }

  /** Recall collapses duplicates: it never has more endpoints than the first snapshot. */
  lemma RecallNoLarger(f: CacheFile)
    requires f.Some? && |f.value| > 0
    ensures RecalledSet(f).Some? && |RecalledSet(f).value| <= |f.value[0]|
  {
    SetOfSize(f.value[0]);
  }

  /** The whole cache directory as one value: a file per cache name. */
  type CacheFiles = map<string, seq<Snapshot>>

  function FileOf(files: CacheFiles, name: string): CacheFile {
    if name in files then Some(files[name]) else None
  }

  /** What the program does to the cache directory. */
  datatype CacheOp = SaveOp(name: string, obj: Snapshot) | ClearOp

  function ApplyOp(files: CacheFiles, op: CacheOp): CacheFiles {
    match op
    case SaveOp(name, obj) => files[name := SavedFile(FileOf(files, name), obj).value]
    case ClearOp => map[]
  }

  function ApplyOps(files: CacheFiles, ops: seq<CacheOp>): CacheFiles
    decreases |ops|
  {
    if ops == [] then files else ApplyOps(ApplyOp(files, ops[0]), ops[1..])
  }

  predicate SavesTo(ops: seq<CacheOp>, name: string) {
    exists i :: 0 <= i < |ops| && ops[i].SaveOp? && ops[i].name == name
  }

  /**
   * After the cache directory is cleared, recall of `name` finds no file
   * until some later operation saves under that same name.
   */
  lemma {:induction false} ClearForgetsUntilSave(files: CacheFiles, ops: seq<CacheOp>, name: string)
    requires !SavesTo(ops, name)
    ensures FileOf(ApplyOps(ApplyOp(files, ClearOp), ops), name) == None
  {
    ClearForgetsUntilSaveFrom(ApplyOp(files, ClearOp), ops, name);
  }

  lemma {:induction false} ClearForgetsUntilSaveFrom(files: CacheFiles, ops: seq<CacheOp>, name: string)
    requires name !in files
    requires !SavesTo(ops, name)
    ensures FileOf(ApplyOps(files, ops), name) == None
    decreases |ops|
  {
    if ops != [] {
      assert forall i :: 0 <= i < |ops[1..]| ==> ops[1..][i] == ops[i + 1];
      assert !(ops[0].SaveOp? && ops[0].name == name);
      ClearForgetsUntilSaveFrom(ApplyOp(files, ops[0]), ops[1..], name);
    }
  }

  /** The per-application cache directory, holding one pickle file per cache name. */
  class CacheDir {
    var files: CacheFiles

    ghost predicate Valid()
      reads this
    {
      forall name :: name in files ==> |files[name]| > 0
    }

    function File(name: string): (f: CacheFile)
      reads this
      requires Valid()
      ensures WellFormed(f)
    {
      FileOf(files, name)
    }

    constructor ()
      ensures Valid() && files == map[]
    {
      files := map[];
    }

    /** `cache_save(name, obj)`: creates `<name>.pkl` or appends one more object to it. */
    method Save(name: string, obj: Snapshot)
      requires Valid()
      modifies this
      ensures Valid()
      ensures files == ApplyOp(old(files), SaveOp(name, obj))
      ensures File(name) == SavedFile(old(File(name)), obj)
      ensures forall other :: other != name ==> FileOf(files, other) == FileOf(old(files), other)
    {
      files := files[name := SavedFile(FileOf(files, name), obj).value];
    }

    /** `cache_recall(name)`: `None` is the process exit on a missing file. */
    method Recall(name: string) returns (r: Option<set<string>>)
      requires Valid()
      ensures r.None? <==> name !in files
      ensures r.Some? ==> r.value == SetOf(files[name][0])
    {
      if name !in files {
        return None;
      }
      var first := files[name][0];
      r := Some(SetOf(first));
    }

    /** The `clear` command: the whole cache directory is removed. */
    method Clear()
      modifies this
      ensures Valid()
      ensures files == ApplyOp(old(files), ClearOp)
    {
      files := map[];
    }
  }

  // ---------------------------------------------------------------------
  // Device tracking (get_by_status / connected_devices)
  // ---------------------------------------------------------------------

  /** One item of the bridge's device tracker: serial, presence and status text. */
  datatype DeviceEvent = DeviceEvent(serial: string, present: bool, status: string)

  /** The unbounded tracker stream: the `i`-th event it yields. */
  type Tracker = nat -> DeviceEvent

  /** `[next(tracker) for _ in range(count)]`. */
  function Pulled(tracker: Tracker, count: nat): (events: seq<DeviceEvent>)
    ensures |events| == count
    ensures forall i :: 0 <= i < count ==> events[i] == tracker(i)
  {
    seq(count, i requires 0 <= i => tracker(i))
  }

  /** The events of `events` whose status is `status`, in order. */
  function KeepStatus(events: seq<DeviceEvent>, status: string): (kept: seq<DeviceEvent>)
    ensures |kept| <= |events|
    ensures forall i :: 0 <= i < |kept| ==> kept[i].status == status
  {
    if events == [] then []
    else (if events[0].status == status then [events[0]] else []) + KeepStatus(events[1..], status)
  }

  lemma {:induction false} KeepStatusAppend(a: seq<DeviceEvent>, b: seq<DeviceEvent>, status: string)
    ensures KeepStatus(a + b, status) == KeepStatus(a, status) + KeepStatus(b, status)
  {
    if a != [] {
      assert (a + b)[1..] == a[1..] + b;
      KeepStatusAppend(a[1..], b, status);
    } else {
      assert a + b == b;
    }
  }

  /** The filter keeps exactly the events with the requested status, and never more events than it read. */
  lemma {:induction false} KeepStatusExact(events: seq<DeviceEvent>, status: string)
    ensures |KeepStatus(events, status)| <= |events|
    ensures forall e :: e in KeepStatus(events, status) <==> e in events && e.status == status
  {
    if events != [] {
      KeepStatusExact(events[1..], status);
      assert events == [events[0]] + events[1..];
    }
  }

  /**
   * `get_by_status(status)`: pulls exactly `listed` events (the length of
   * `adb.device_list()`) from the tracker, then keeps those whose status
   * equals `status`, in tracker order.
   */
  method GetByStatus(tracker: Tracker, listed: nat, status: string) returns (devices: seq<DeviceEvent>)
    ensures devices == KeepStatus(Pulled(tracker, listed), status)
    ensures |devices| <= listed
    ensures forall e :: e in devices <==> (exists i :: 0 <= i < listed && tracker(i) == e) && e.status == status
  {
    var pulled := Pulled(tracker, listed);
    devices := [];
    var i := 0;
    while i < |pulled|
      invariant 0 <= i <= |pulled|
      invariant devices == KeepStatus(pulled[..i], status)
    {
      KeepStatusAppend(pulled[..i], [pulled[i]], status);
      assert pulled[..i + 1] == pulled[..i] + [pulled[i]];
      if pulled[i].status == status {
        devices := devices + [pulled[i]];
      }
      i := i + 1;
    }
    assert pulled[..i] == pulled;
    KeepStatusExact(pulled, status);
  }

  /** One row of the "show" table: `str()` of serial, presence and status. */
  datatype Row = Row(address: string, present: string, status: string)

  /** Python's `str(b)` for a boolean. */
  function BoolText(b: bool): string {
    if b then "True" else "False"
  }

  /** `connected_devices()`: one row per `device`-status event, in tracker order. */
  method ConnectedDevices(tracker: Tracker, listed: nat) returns (rows: seq<Row>)
    ensures var devices := KeepStatus(Pulled(tracker, listed), "device");
      |rows| == |devices|
      && forall i :: 0 <= i < |rows| ==>
           rows[i] == Row(devices[i].serial, BoolText(devices[i].present), devices[i].status)
    ensures forall i :: 0 <= i < |rows| ==> rows[i].status == "device"
  {
    var devices := GetByStatus(tracker, listed, "device");
    rows := [];
    var i := 0;
    while i < |devices|
      invariant 0 <= i <= |devices|
      invariant |rows| == i
      invariant forall j :: 0 <= j < i ==>
        rows[j] == Row(devices[j].serial, BoolText(devices[j].present), devices[j].status)
    {
      rows := rows + [Row(devices[i].serial, BoolText(devices[i].present), devices[i].status)];
      i := i + 1;
    }
  }

  // ---------------------------------------------------------------------
  // UpdatableTextColumn
  // ---------------------------------------------------------------------

  /** What `render` hands to the progress display. */
  datatype RenderedText = RenderedText(text: string, style: string, justify: string)

  /** A progress-bar column showing a replaceable text. */
  class TextColumn {
    var text: string
    var style: string
    var justify: string

    constructor (text: string, style: string, justify: string)
      ensures this.text == text && this.style == style && this.justify == justify
    {
      this.text := text;
      this.style := style;
      this.justify := justify;
    }

    /** `render(task)`: the column's current text with its style and justification. */
    function Render(): (r: RenderedText)
      reads this
    {
      RenderedText(text, style, justify)
    }

    /** `set_text(new_text)`: only the text changes, and the next render shows it. */
    method SetText(newText: string)
      modifies this`text
      ensures text == newText
      ensures Render() == RenderedText(newText, old(style), old(justify))
    {
      text := newText;
    }
  }
}
