/**
 * The command bodies of main.py other than the scanner: `load`, `connect`,
 * `broad-cmd`, the serial checks of `exec` and `pull`, the remote path of
 * `push`, and `clear`. Every call into adbutils is a parameter: a function
 * from the serial or address to the outcome of that call.
 */
module Commands {
  import opened Wrappers
  import opened PyStr
  import opened Utils

  // ---------------------------------------------------------------------
  // load
  // ---------------------------------------------------------------------

  /** The value of `d['ports'][0]['port']` in the scanner's JSON output. */
  datatype PortValue = PortText(text: string) | PortNumber(number: int)

  /** One record of the JSON list: its `ip` and its `ports` entries. */
  datatype ScanRecord = ScanRecord(ip: string, ports: seq<PortValue>)

  /** `'5555' == port`: true for the string only, never for the number 5555. */
  predicate IsDefaultPort(p: PortValue) {
    p == PortText("5555")
  }

  /** The port as an f-string renders it. */
  function PortString(p: PortValue): string {
    match p
    case PortText(t) => t
    case PortNumber(n) => IntToDecimal(n)
  }

  /** `f"{d['ip']}:{d['ports'][0]['port']}"`. */
  function Endpoint(r: ScanRecord): string
    requires r.ports != []
  {
    r.ip + ":" + PortString(r.ports[0])
  }

  /** A record `load` turns into an endpoint. */
  predicate Kept(r: ScanRecord) {
    r.ports != [] && !IsDefaultPort(r.ports[0])
  }

  /**
   * The endpoints `load` collects from `data`, or the index of the first
   * record whose `ports` list is empty (reading `[0]` raises IndexError).
   */
  function Endpoints(data: seq<ScanRecord>): (r: Result<seq<string>, nat>)
    ensures r.Ok? ==> |r.value| <= |data|
    ensures r.Err? ==> r.error < |data| && data[r.error].ports == []
    decreases |data|
  {
    if data == [] then Ok([])
    else
      var n := |data| - 1;
      match Endpoints(data[..n])
      case Err(i) => Err(i)
      case Ok(eps) =>
        if data[n].ports == [] then Err(n)
        else if IsDefaultPort(data[n].ports[0]) then Ok(eps)
        else Ok(eps + [Endpoint(data[n])])
  }

  /** The indices of the kept records, in order. */
  function KeptIndices(data: seq<ScanRecord>): seq<nat>
    decreases |data|
  {
    if data == [] then []
    else
      var n := |data| - 1;
      KeptIndices(data[..n]) + (if Kept(data[n]) then [n] else [])
  }

  /** The kept indices are increasing and are exactly the indices of the kept records. */
  lemma {:induction false} KeptIndicesExact(data: seq<ScanRecord>)
    ensures forall k :: 0 <= k < |KeptIndices(data)| ==> KeptIndices(data)[k] < |data|
    ensures forall k, l :: 0 <= k < l < |KeptIndices(data)| ==> KeptIndices(data)[k] < KeptIndices(data)[l]
    ensures forall i :: 0 <= i < |data| ==> (Kept(data[i]) <==> i in KeptIndices(data))
    decreases |data|
  {
    if data != [] {
      var n := |data| - 1;
      KeptIndicesExact(data[..n]);
      assert forall i :: 0 <= i < n ==> data[..n][i] == data[i];
    }
  }

  /**
   * Without an empty `ports` list, `load` yields one endpoint per kept
   * record, in record order, duplicates included.
   */
  lemma {:induction false} EndpointsOfKept(data: seq<ScanRecord>)
    requires forall i :: 0 <= i < |data| ==> data[i].ports != []
    ensures Endpoints(data).Ok?
    ensures var idx := KeptIndices(data);
      |Endpoints(data).value| == |idx|
      && forall k :: 0 <= k < |idx| ==> idx[k] < |data| && Endpoints(data).value[k] == Endpoint(data[idx[k]])
    decreases |data|
  {
    KeptIndicesExact(data);
    if data != [] {
      var n := |data| - 1;
      assert forall i :: 0 <= i < n ==> data[..n][i] == data[i];
      EndpointsOfKept(data[..n]);
      KeptIndicesExact(data[..n]);
    }
  }

  /** `load` fails exactly when some record has no `ports` entry, and then at the first such record. */
  lemma {:induction false} EndpointsError(data: seq<ScanRecord>)
    ensures Endpoints(data).Err? <==> exists i :: 0 <= i < |data| && data[i].ports == []
    ensures Endpoints(data).Err? ==>
      Endpoints(data).error < |data| && data[Endpoints(data).error].ports == []
      && forall j :: 0 <= j < Endpoints(data).error ==> data[j].ports != []
    decreases |data|
  {
    if data != [] {
      var n := |data| - 1;
      assert forall i :: 0 <= i < n ==> data[..n][i] == data[i];
      EndpointsError(data[..n]);
    }
  }

  /** Records appended after a failing prefix do not change the failure. */
  lemma {:induction false} EndpointsErrorSticks(data: seq<ScanRecord>, more: seq<ScanRecord>)
    requires Endpoints(data).Err?
    ensures Endpoints(data + more) == Endpoints(data)
    decreases |more|
  {
    if more == [] {
      assert data + more == data;
    } else {
      var m := |more| - 1;
      EndpointsErrorSticks(data, more[..m]);
      assert (data + more)[..|data + more| - 1] == data + more[..m];
    }
  }

  /** Every endpoint names a kept record, and every kept record yields its endpoint. */
  lemma EndpointsMembers(data: seq<ScanRecord>)
    requires forall i :: 0 <= i < |data| ==> data[i].ports != []
    ensures Endpoints(data).Ok?
    ensures forall e :: e in Endpoints(data).value <==>
      exists i :: 0 <= i < |data| && Kept(data[i]) && Endpoint(data[i]) == e
  {
    EndpointsOfKept(data);
    KeptIndicesExact(data);
    var eps := Endpoints(data).value;
    var idx := KeptIndices(data);
    forall e | e in eps
      ensures exists i :: 0 <= i < |data| && Kept(data[i]) && Endpoint(data[i]) == e
    {
      var k :| 0 <= k < |eps| && eps[k] == e;
      assert idx[k] in idx;
    }
    forall i | 0 <= i < |data| && Kept(data[i])
      ensures Endpoint(data[i]) in eps
    {
      var k :| 0 <= k < |idx| && idx[k] == i;
      assert eps[k] == Endpoint(data[i]);
    }
  }

  /** The record `ip` with the string port `5555` is skipped. */
  lemma SkipsDefaultText(ip: string)
    ensures Endpoints([ScanRecord(ip, [PortText("5555")])]) == Ok([])
  {
    assert [ScanRecord(ip, [PortText("5555")])][..0] == [];
  }

  /** A record with the string port `5037` becomes `ip:5037`. */
  lemma KeepsOtherText(ip: string)
    ensures Endpoints([ScanRecord(ip, [PortText("5037")])]) == Ok([ip + ":5037"])
  {
    var r := ScanRecord(ip, [PortText("5037")]);
    assert [r][..0] == [];
    assert !IsDefaultPort(r.ports[0]);
    assert Endpoint(r) == ip + ":5037";
    assert Endpoints([]) == Ok([]);
    assert Endpoints([r]) == Ok([] + [Endpoint(r)]);
    assert [] + [Endpoint(r)] == [Endpoint(r)];
  }

  /** The number 5555, as the scanner's JSON writes ports, is not filtered out. */
  lemma KeepsDefaultNumber(ip: string)
    ensures Endpoints([ScanRecord(ip, [PortNumber(5555)])]) == Ok([ip + ":5555"])
  {
    var r := ScanRecord(ip, [PortNumber(5555)]);
    assert [r][..0] == [];
    assert Endpoints([]) == Ok([]);
    assert NatToDecimal(5) == "5";
    assert NatToDecimal(55) == "55";
    assert NatToDecimal(555) == "555";
    assert NatToDecimal(5555) == "5555";
    assert Endpoint(r) == ip + ":5555";
    assert Endpoints([r]) == Ok([] + [Endpoint(r)]);
    assert [] + [Endpoint(r)] == [Endpoint(r)];
  }

  /** The `for d in data` loop of `load`: the endpoints, or the index where `[0]` fails. */
  method Load(data: seq<ScanRecord>) returns (r: Result<seq<string>, nat>)
    ensures r == Endpoints(data)
  {
    var devices: seq<string> := [];
    var i := 0;
    while i < |data|
      invariant 0 <= i <= |data|
      invariant Endpoints(data[..i]) == Ok(devices)
    {
      assert data[..i + 1][..i] == data[..i];
      var d := data[i];
      if d.ports == [] {
        EndpointsErrorSticks(data[..i + 1], data[i + 1..]);
        assert data[..i + 1] + data[i + 1..] == data;
        return Err(i);
      }
      if !IsDefaultPort(d.ports[0]) {
        devices := devices + [Endpoint(d)];
      }
      i := i + 1;
    }
    assert data[..i] == data;
    r := Ok(devices);
  }

  /** The `load` command: the endpoints are saved under `devices` unless a record fails. */
  method LoadCommand(cache: CacheDir, data: seq<ScanRecord>) returns (r: Result<seq<string>, nat>)
    requires cache.Valid()
    modifies cache
    ensures cache.Valid()
    ensures r == Endpoints(data)
    ensures r.Ok? ==> cache.files == ApplyOp(old(cache.files), SaveOp("devices", r.value))
    ensures r.Err? ==> cache.files == old(cache.files)
  {
    r := Load(data);
    if r.Ok? {
      cache.Save("devices", r.value);
    }
  }

  // ---------------------------------------------------------------------
  // connect
  // ---------------------------------------------------------------------

  /** The outcome of one `adb.connect(addr, timeout=2.0)` call. */
  datatype Attempt = TimedOut | Returned(message: string)

  /** How `connect` ends. */
  datatype ConnectReport =
    | CacheMissing          // `cache_recall` exits on a missing file
    | EmptyCache            // "there is no device inside the cache file."
    | Refused(message: string)
    | ConnectedTo(socket: string)
    | ConnectedSome         // batch mode: at least one address answered
    | NothingConnected      // "Something went wrong during the connection"

  /** A reply that reports a failed connection. */
  predicate Rejected(message: string) {
    Contains(message, "failed") || Contains(message, "unable") || Contains(message, "already")
  }

  /**
   * What `connect` reports, given the recalled cache and the outcome of each
   * call. With no socket the replies are never read: only whether some
   * address did not time out counts.
   */
  function ConnectOutcome(socket: string, recalled: Option<set<string>>, bridge: string -> Attempt): (r: ConnectReport)
    ensures r.Refused? ==> socket != "" && Rejected(r.message)
    ensures r == CacheMissing <==> socket == "" && recalled.None?
    ensures r == EmptyCache <==> socket == "" && recalled == Some({})
    ensures r.ConnectedTo? ==> r.socket == socket != ""
  {
    if socket == "" then
      match recalled
      case None => CacheMissing
      case Some(devices) =>
        if devices == {} then EmptyCache
        else if exists a :: a in devices && bridge(a).Returned? then ConnectedSome
        else NothingConnected
    else
      match bridge(socket)
      case TimedOut => NothingConnected
      case Returned(m) => if Rejected(m) then Refused(m) else ConnectedTo(socket)
  }

  /** In batch mode two bridges that time out on the same addresses give the same report. */
  lemma BatchIgnoresReplies(recalled: Option<set<string>>, b1: string -> Attempt, b2: string -> Attempt)
    requires recalled.Some? ==> forall a :: a in recalled.value ==> (b1(a).TimedOut? <==> b2(a).TimedOut?)
    ensures ConnectOutcome("", recalled, b1) == ConnectOutcome("", recalled, b2)
    ensures !ConnectOutcome("", recalled, b1).Refused? && !ConnectOutcome("", recalled, b1).ConnectedTo?
  {
  }

  /** With a socket the cache is not consulted, and a reply naming a failure is an error. */
  lemma SingleSocket(socket: string, recalled: Option<set<string>>, bridge: string -> Attempt)
    requires socket != ""
    ensures ConnectOutcome(socket, recalled, bridge) == ConnectOutcome(socket, None, bridge)
    ensures ConnectOutcome(socket, recalled, bridge).Refused? <==> bridge(socket).Returned? && Rejected(bridge(socket).message)
    ensures ConnectOutcome(socket, recalled, bridge) == ConnectedTo(socket) <==>
      bridge(socket).Returned? && !Rejected(bridge(socket).message)
  {
  }

  /**
   * The `connect` command. `tried` is the order in which the addresses were
   * attempted: each recalled address once, none when the cache is missing
   * or empty.
   */
  method Connect(socket: string, cache: CacheDir, bridge: string -> Attempt)
    returns (report: ConnectReport, tried: seq<string>)
    requires cache.Valid()
    ensures report == ConnectOutcome(socket, RecalledSet(cache.File("devices")), bridge)
    ensures socket != "" ==> tried == [socket]
    ensures report == CacheMissing || report == EmptyCache ==> tried == []
    ensures socket == "" && "devices" in cache.files ==>
      var devices := SetOf(cache.files["devices"][0]);
      |tried| == |devices| && forall a :: a in tried <==> a in devices
  {
    if socket != "" {
      tried := [socket];
      var attempt := bridge(socket);
      if attempt.TimedOut? {
        report := NothingConnected;
      } else if Rejected(attempt.message) {
        report := Refused(attempt.message);
      } else {
        report := ConnectedTo(socket);
      }
      return;
    }
    var recalled := cache.Recall("devices");
    if recalled.None? {
      return CacheMissing, [];
    }
    var devices := recalled.value;
    if |devices| == 0 {
      return EmptyCache, [];
    }
    var success := false;
    var remaining := devices;
    tried := [];
    while remaining != {}
      invariant remaining <= devices
      invariant forall a :: a in tried <==> a in devices && a !in remaining
      invariant |tried| + |remaining| == |devices|
      invariant success <==> exists a :: a in tried && bridge(a).Returned?
      decreases |remaining|
    {
      var addr :| addr in remaining;
      tried := tried + [addr];
      remaining := remaining - {addr};
      if bridge(addr).Returned? {
        success := true;
      }
    }
    report := if success then ConnectedSome else NothingConnected;
  }

  /** Once the cache is cleared, batch `connect` finds no cache file until `devices` is saved again. */
  lemma ConnectAfterClear(files: CacheFiles, ops: seq<CacheOp>, bridge: string -> Attempt)
    requires !SavesTo(ops, "devices")
    ensures FileOf(ApplyOps(ApplyOp(files, ClearOp), ops), "devices") == None
    ensures ConnectOutcome("", RecalledSet(FileOf(ApplyOps(ApplyOp(files, ClearOp), ops), "devices")), bridge)
            == CacheMissing
  {
    ClearForgetsUntilSave(files, ops, "devices");
  }

  // ---------------------------------------------------------------------
  // broad-cmd
  // ---------------------------------------------------------------------

  /** What one answer to "do you wanna display them? (Y/n)" decides. */
  datatype Choice = ShowTable | Skip | AskAgain

  function ClassifyAnswer(answer: string): (c: Choice)
    ensures c != AskAgain ==> |answer| <= 3
    ensures c == ShowTable ==> answer == "" || answer[0] == 'Y' || answer[0] == 'y'
    ensures c == Skip ==> answer != "" && (answer[0] == 'N' || answer[0] == 'n')
  {
    if answer == "Y" || answer == "y" || answer == "YES" || answer == "yes" || answer == "" then ShowTable
    else if answer == "N" || answer == "n" || answer == "NO" || answer == "no" then Skip
    else AskAgain
  }

  /** The answers that display, and those that do not; all others ask again. */
  lemma AnswerSets(answer: string)
    ensures ClassifyAnswer(answer) == ShowTable <==> answer in {"Y", "y", "YES", "yes", ""}
    ensures ClassifyAnswer(answer) == Skip <==> answer in {"N", "n", "NO", "no"}
    ensures ClassifyAnswer(answer) == AskAgain <==>
      answer !in {"Y", "y", "YES", "yes", "", "N", "n", "NO", "no"}
  {
  }

  /** The answer that ends the prompt loop: the first that does not ask again, if any. */
  function Decision(answers: seq<string>): Option<bool> {
    if answers == [] then None
    else match ClassifyAnswer(answers[0])
      case ShowTable => Some(true)
      case Skip => Some(false)
      case AskAgain => Decision(answers[1..])
  }

  /** Answer `j` is `choice` and every answer before it asks again. */
  predicate DecidedAt(answers: seq<string>, j: int, choice: Choice) {
    0 <= j < |answers| && ClassifyAnswer(answers[j]) == choice
    && forall i :: 0 <= i < j ==> ClassifyAnswer(answers[i]) == AskAgain
  }

  /**
   * The table is shown exactly when the first answer that does not ask
   * again displays, skipped exactly when it declines, and the input ends
   * exactly when every answer asks again.
   */
  lemma {:induction false} DecisionFirst(answers: seq<string>)
    ensures Decision(answers) == Some(true) <==> exists j :: DecidedAt(answers, j, ShowTable)
    ensures Decision(answers) == Some(false) <==> exists j :: DecidedAt(answers, j, Skip)
    ensures Decision(answers) == None <==>
      forall i :: 0 <= i < |answers| ==> ClassifyAnswer(answers[i]) == AskAgain
  {
    if answers != [] {
      var rest := answers[1..];
      DecisionFirst(rest);
      if ClassifyAnswer(answers[0]) == AskAgain {
        forall j, c | DecidedAt(rest, j, c)
          ensures DecidedAt(answers, j + 1, c)
        {
          assert forall i :: 1 <= i < j + 1 ==> answers[i] == rest[i - 1];
        }
        forall j, c | DecidedAt(answers, j, c) && c != AskAgain
          ensures DecidedAt(rest, j - 1, c)
        {
          assert forall i :: 0 <= i < j - 1 ==> rest[i] == answers[i + 1];
        }
        assert (forall i :: 0 <= i < |rest| ==> ClassifyAnswer(rest[i]) == AskAgain)
               ==> forall i :: 0 <= i < |answers| ==> ClassifyAnswer(answers[i]) == AskAgain
        by {
          if forall i :: 0 <= i < |rest| ==> ClassifyAnswer(rest[i]) == AskAgain {
            forall i | 1 <= i < |answers|
              ensures ClassifyAnswer(answers[i]) == AskAgain
            {
              assert answers[i] == rest[i - 1];
            }
          }
        }
      } else {
        assert DecidedAt(answers, 0, ClassifyAnswer(answers[0]));
      }
    }
  }

  /**
   * The `while True` prompt loop over the given answers; `asked` counts the
   * prompts shown. The answer to the last prompt decides and every earlier
   * one asks again. When the answers run out the last prompt gets no answer
   * and `show` is `None`.
   */
  method AskToDisplay(answers: seq<string>) returns (show: Option<bool>, asked: nat)
    ensures 1 <= asked <= |answers| + 1
    ensures forall i :: 0 <= i < asked - 1 ==> ClassifyAnswer(answers[i]) == AskAgain
    ensures show.Some? <==> asked <= |answers|
    ensures show.Some? ==> ClassifyAnswer(answers[asked - 1]) == (if show.value then ShowTable else Skip)
    ensures show == Decision(answers)
  {
    var read := 0;
    while read < |answers|
      invariant read <= |answers|
      invariant forall i :: 0 <= i < read ==> ClassifyAnswer(answers[i]) == AskAgain
      invariant Decision(answers) == Decision(answers[read..])
    {
      assert answers[read..][1..] == answers[read + 1..];
      var choice := ClassifyAnswer(answers[read]);
      read := read + 1;
      if choice == ShowTable {
        return Some(true), read;
      } else if choice == Skip {
        return Some(false), read;
      }
    }
    show, asked := None, read + 1;
  }

  /** Dict keys in insertion order, with no key twice. */
  predicate Distinct(keys: seq<string>) {
    forall i, j :: 0 <= i < j < |keys| ==> keys[i] != keys[j]
  }

  /**
   * The loop filling `output[item.serial] = device.shell(command)`: the dict
   * as its keys in insertion order and its entries. A repeated serial keeps
   * its first position.
   */
  method CollectOutputs(devices: seq<DeviceEvent>, shell: string -> string)
    returns (keys: seq<string>, output: map<string, string>)
    ensures Distinct(keys)
    ensures forall k :: k in keys <==> k in output
    ensures forall k :: k in output <==> exists i :: 0 <= i < |devices| && devices[i].serial == k
    ensures forall k :: k in output ==> output[k] == shell(k)
    ensures keys == [] <==> devices == []
  {
    keys := [];
    output := map[];
    var i := 0;
    while i < |devices|
      invariant 0 <= i <= |devices|
      invariant Distinct(keys)
      invariant forall k :: k in keys <==> k in output
      invariant forall k :: k in output <==> exists j :: 0 <= j < i && devices[j].serial == k
      invariant forall k :: k in output ==> output[k] == shell(k)
      invariant keys == [] <==> i == 0
    {
      var serial := devices[i].serial;
      if serial !in output {
        keys := keys + [serial];
      }
      output := output[serial := shell(serial)];
      i := i + 1;
    }
  }

  /** Some device returned a non-empty output (the `check` flag; the loop stops at the first). */
  method AnyOutput(keys: seq<string>, output: map<string, string>) returns (check: bool)
    requires forall k :: k in keys ==> k in output
    ensures check <==> exists i :: 0 <= i < |keys| && output[keys[i]] != ""
  {
    check := false;
    var i := 0;
    while i < |keys| && !check
      invariant 0 <= i <= |keys|
      invariant check <==> exists j :: 0 <= j < i && output[keys[j]] != ""
    {
      if output[keys[i]] != "" {
        check := true;
      }
      i := i + 1;
    }
  }

  /** The collected outputs hold a non-empty one exactly when some device's shell output is non-empty. */
  lemma NonEmptyOutputs(devices: seq<DeviceEvent>, keys: seq<string>, output: map<string, string>, shell: string -> string)
    requires forall k :: k in keys <==> k in output
    requires forall k :: k in output <==> exists i :: 0 <= i < |devices| && devices[i].serial == k
    requires forall k :: k in output ==> output[k] == shell(k)
    ensures (exists i :: 0 <= i < |keys| && output[keys[i]] != "") <==>
            (exists i :: 0 <= i < |devices| && shell(devices[i].serial) != "")
  {
    if exists i :: 0 <= i < |devices| && shell(devices[i].serial) != "" {
      var i :| 0 <= i < |devices| && shell(devices[i].serial) != "";
      var k := devices[i].serial;
      assert k in output;
      var j :| 0 <= j < |keys| && keys[j] == k;
      assert output[keys[j]] != "";
    }
    if exists i :: 0 <= i < |keys| && output[keys[i]] != "" {
      var i :| 0 <= i < |keys| && output[keys[i]] != "";
      assert keys[i] in output;
      var d :| 0 <= d < |devices| && devices[d].serial == keys[i];
      assert shell(devices[d].serial) != "";
    }
  }

  /** The rows of the results table: one per serial, with that serial's output. */
  predicate OneRowPerSerial(table: seq<(string, string)>, devices: seq<DeviceEvent>, shell: string -> string) {
    (forall i, j :: 0 <= i < j < |table| ==> table[i].0 != table[j].0)
    && (forall i :: 0 <= i < |table| ==>
          table[i].1 == shell(table[i].0) && exists k :: 0 <= k < |devices| && devices[k].serial == table[i].0)
    && (forall k :: 0 <= k < |devices| ==> HasRow(table, devices[k].serial))
  }

  predicate HasRow(table: seq<(string, string)>, serial: string) {
    exists i :: 0 <= i < |table| && table[i].0 == serial
  }

  /** `for key in output.keys(): table.add_row(key, output.get(key))`. */
  method BuildTable(keys: seq<string>, output: map<string, string>) returns (table: seq<(string, string)>)
    requires forall k :: k in keys ==> k in output
    ensures |table| == |keys|
    ensures forall i :: 0 <= i < |table| ==> table[i] == (keys[i], output[keys[i]])
  {
    table := [];
    var i := 0;
    while i < |keys|
      invariant 0 <= i <= |keys|
      invariant |table| == i
      invariant forall j :: 0 <= j < i ==> table[j] == (keys[j], output[keys[j]])
    {
      table := table + [(keys[i], output[keys[i]])];
      i := i + 1;
    }
  }

  /** A table built from the collected outputs has one row per serial. */
  lemma CollectedTable(devices: seq<DeviceEvent>, keys: seq<string>, output: map<string, string>,
                       shell: string -> string, table: seq<(string, string)>)
    requires Distinct(keys)
    requires forall k :: k in keys <==> k in output
    requires forall k :: k in output <==> exists i :: 0 <= i < |devices| && devices[i].serial == k
    requires forall k :: k in output ==> output[k] == shell(k)
    requires |table| == |keys| && forall i :: 0 <= i < |table| ==> table[i] == (keys[i], output[keys[i]])
    ensures OneRowPerSerial(table, devices, shell)
  {
    forall i, j | 0 <= i < j < |table|
      ensures table[i].0 != table[j].0
    {
      assert table[i].0 == keys[i] && table[j].0 == keys[j];
    }
    forall i | 0 <= i < |table|
      ensures table[i].1 == shell(table[i].0)
      ensures exists k :: 0 <= k < |devices| && devices[k].serial == table[i].0
    {
      assert keys[i] in output;
    }
    forall k | 0 <= k < |devices|
      ensures HasRow(table, devices[k].serial)
    {
      assert devices[k].serial in output;
      var i :| 0 <= i < |keys| && keys[i] == devices[k].serial;
      assert table[i].0 == keys[i];
    }
  }

  /** How `broad-cmd` ends. */
  datatype BroadcastReport =
    | NoDevicesConnected
    | NoCommand
    | NothingCollected      // no device with status `device`: nothing after "DONE"
    | NoOutputReturned
    | Shown(table: seq<(string, string)>)
    | NotShown
    | InputEnded            // the answers ran out while the prompt repeated

  /**
   * `broad-cmd` once the `device` entries are known: run the command on
   * each, ask whether to display when some output is non-empty, and build
   * the table when the answer says so.
   */
  method ReportOutputs(devices: seq<DeviceEvent>, shell: string -> string, answers: seq<string>)
    returns (report: BroadcastReport, asked: nat)
    ensures report == NothingCollected <==> devices == []
    ensures report == NoOutputReturned <==>
      devices != [] && forall i :: 0 <= i < |devices| ==> shell(devices[i].serial) == ""
    ensures asked > 0 <==> exists i :: 0 <= i < |devices| && shell(devices[i].serial) != ""
    ensures (exists i :: 0 <= i < |devices| && shell(devices[i].serial) != "") ==>
      (report.Shown? <==> Decision(answers) == Some(true))
      && (report == NotShown <==> Decision(answers) == Some(false))
      && (report == InputEnded <==> Decision(answers) == None)
    ensures report.Shown? ==> OneRowPerSerial(report.table, devices, shell)
  {
    var keys, output := CollectOutputs(devices, shell);
    NonEmptyOutputs(devices, keys, output, shell);
    if |keys| == 0 {
      return NothingCollected, 0;
    }
    assert keys[0] in output;
    var check := AnyOutput(keys, output);
    if !check {
      return NoOutputReturned, 0;
    }
    var show;
    show, asked := AskToDisplay(answers);
    if show.None? {
      return InputEnded, asked;
    }
    if !show.value {
      return NotShown, asked;
    }
    var table := BuildTable(keys, output);
    CollectedTable(devices, keys, output, shell, table);
    report := Shown(table);
  }

  /**
   * The `broad-cmd` command over the devices whose status is `device`,
   * `listed` being the length of `adb.device_list()`. The prompt is shown
   * exactly when some output is non-empty, and the first answer that does
   * not ask again decides; a shown table has one row per serial, with that
   * serial's output.
   */
  method Broadcast(tracker: Tracker, listed: nat, command: seq<string>, shell: string -> string, answers: seq<string>)
    returns (report: BroadcastReport, asked: nat)
    ensures listed == 0 ==> report == NoDevicesConnected && asked == 0
    ensures listed > 0 && command == [] ==> report == NoCommand && asked == 0
    ensures var devices := KeepStatus(Pulled(tracker, listed), "device");
      listed > 0 && command != [] ==>
        (report == NothingCollected <==> devices == [])
        && (asked > 0 <==> exists i :: 0 <= i < |devices| && shell(devices[i].serial) != "")
    ensures var devices := KeepStatus(Pulled(tracker, listed), "device");
      listed > 0 && command != [] ==>
        (report == NoOutputReturned <==>
           devices != [] && forall i :: 0 <= i < |devices| ==> shell(devices[i].serial) == "")
    ensures var devices := KeepStatus(Pulled(tracker, listed), "device");
      listed > 0 && command != [] && (exists i :: 0 <= i < |devices| && shell(devices[i].serial) != "") ==>
        (report.Shown? <==> Decision(answers) == Some(true))
        && (report == NotShown <==> Decision(answers) == Some(false))
        && (report == InputEnded <==> Decision(answers) == None)
    ensures report.Shown? ==> OneRowPerSerial(report.table, KeepStatus(Pulled(tracker, listed), "device"), shell)
  {
    if listed == 0 {
      return NoDevicesConnected, 0;
    }
    if command == [] {
      return NoCommand, 0;
    }
    var devices := GetByStatus(tracker, listed, "device");
    report, asked := ReportOutputs(devices, shell, answers);
  }


  // ---------------------------------------------------------------------
  // exec and pull
  // ---------------------------------------------------------------------

  /** `PurePath(path).is_absolute()` for a POSIX path. */
  predicate IsAbsolute(path: string)
    ensures IsAbsolute(path) ==> path != [] && StartsWith(path, "/")
  {
    |path| > 0 && path[0] == '/'
  }

  /** The `found` loop of `exec` and `pull`: some listed device has the serial `socket`. */
  method SerialConnected(devices: seq<DeviceEvent>, socket: string) returns (found: bool)
    ensures found <==> exists i :: 0 <= i < |devices| && devices[i].serial == socket
  {
    found := false;
    for i := 0 to |devices|
      invariant found <==> exists j :: 0 <= j < i && devices[j].serial == socket
    {
      if devices[i].serial == socket {
        found := true;
      }
    }
  }

  /** Some of the first `listed` tracker events is a `device` event for `socket`. */
  predicate Tracked(tracker: Tracker, listed: nat, socket: string) {
    exists i :: 0 <= i < listed && tracker(i).status == "device" && tracker(i).serial == socket
  }

  /** The membership test over `get_by_status('device')` is the test over the tracker events. */
  lemma ConnectedIffTracked(tracker: Tracker, listed: nat, socket: string)
    ensures (exists i :: 0 <= i < |KeepStatus(Pulled(tracker, listed), "device")|
                         && KeepStatus(Pulled(tracker, listed), "device")[i].serial == socket)
            <==> Tracked(tracker, listed, socket)
  {
    var pulled := Pulled(tracker, listed);
    var devices := KeepStatus(pulled, "device");
    KeepStatusExact(pulled, "device");
    if Tracked(tracker, listed, socket) {
      var i :| 0 <= i < listed && tracker(i).status == "device" && tracker(i).serial == socket;
      assert pulled[i] in pulled;
      var j :| 0 <= j < |devices| && devices[j] == pulled[i];
    }
    if exists i :: 0 <= i < |devices| && devices[i].serial == socket {
      var i :| 0 <= i < |devices| && devices[i].serial == socket;
      assert devices[i] in devices;
      var j :| 0 <= j < |pulled| && pulled[j] == devices[i];
    }
  }

  /** How `exec` ends. */
  datatype ExecReport =
    | ExecNoDevices
    | ExecNotConnected(socket: string)
    | ExecNoCommand
    | ShellFailed           // `device.shell` raised AdbError
    | Output(text: string)
    | EmptyOutput

  /**
   * The `exec` command; `shell(socket)` is the output of `device.shell`, or
   * `None` where it raises AdbError.
   */
  method Execute(tracker: Tracker, listed: nat, socket: string, command: seq<string>, shell: string -> Option<string>)
    returns (report: ExecReport)
    ensures var devices := KeepStatus(Pulled(tracker, listed), "device");
      devices == [] ==> report == ExecNoDevices
    ensures var devices := KeepStatus(Pulled(tracker, listed), "device");
      devices != [] && !Tracked(tracker, listed, socket) ==> report == ExecNotConnected(socket)
    ensures Tracked(tracker, listed, socket) && command == [] ==> report == ExecNoCommand
    ensures Tracked(tracker, listed, socket) && command != [] ==>
      report == match shell(socket)
                case None => ShellFailed
                case Some(t) => if t == "" then EmptyOutput else Output(t)
  {
    var devices := GetByStatus(tracker, listed, "device");
    ConnectedIffTracked(tracker, listed, socket);
    if |devices| == 0 {
      return ExecNoDevices;
    }
    var found := SerialConnected(devices, socket);
    if !found {
      return ExecNotConnected(socket);
    }
    if command == [] {
      return ExecNoCommand;
    }
    var output := shell(socket);
    if output.None? {
      return ShellFailed;
    }
    if |output.value| > 0 {
      report := Output(output.value);
    } else {
      report := EmptyOutput;
    }
  }

  /** How `pull` ends. */
  datatype PullReport =
    | PullNoDevices
    | PullNotConnected(socket: string)
    | NotAbsolute(remote: string)
    | TransferFailed        // `device.sync.pull` raised AdbError
    | PulledFile(remote: string, local: string)

  /** The `pull` command; `transferred` is whether `device.sync.pull` completed. */
  method Pull(tracker: Tracker, listed: nat, socket: string, remote: string, local: string, transferred: bool)
    returns (report: PullReport)
    ensures var devices := KeepStatus(Pulled(tracker, listed), "device");
      devices == [] ==> report == PullNoDevices
    ensures var devices := KeepStatus(Pulled(tracker, listed), "device");
      devices != [] && !Tracked(tracker, listed, socket) ==> report == PullNotConnected(socket)
    ensures Tracked(tracker, listed, socket) && !IsAbsolute(remote) ==> report == NotAbsolute(remote)
    ensures Tracked(tracker, listed, socket) && IsAbsolute(remote) ==>
      report == (if transferred then PulledFile(remote, local) else TransferFailed)
  {
    var devices := GetByStatus(tracker, listed, "device");
    ConnectedIffTracked(tracker, listed, socket);
    if |devices| == 0 {
      return PullNoDevices;
    }
    var found := SerialConnected(devices, socket);
    if !found {
      return PullNotConnected(socket);
    }
    if !IsAbsolute(remote) {
      return NotAbsolute(remote);
    }
    if !transferred {
      return TransferFailed;
    }
    report := PulledFile(remote, local);
  }

  // ---------------------------------------------------------------------
  // push: the remote path
  // ---------------------------------------------------------------------

  /** `local.split('/')[-1]`: the file name, a suffix of `local` without `/`. */
  function LastSegment(local: string): (name: string)
    ensures '/' !in name
    ensures EndsWith(local, name)
  {
    SplitLastIsSuffix(local, '/');
    var parts := Split(local, '/');
    parts[|parts| - 1]
  }

  /** `os.path.join(a, b)` on POSIX, for two components. */
  function PosixJoin(a: string, b: string): (r: string)
    ensures EndsWith(r, b)
    ensures (|b| > 0 && b[0] == '/') || StartsWith(r, a)
  {
    if |b| > 0 && b[0] == '/' then b
    else if a == "" || EndsWith(a, "/") then a + b
    else a + "/" + b
  }

  /**
   * The remote path `push` writes to: `remote` itself when it already ends
   * with `local`, otherwise `remote` joined with the file name of `local`.
   */
  function PushTarget(local: string, remote: string): (target: string)
    ensures EndsWith(remote, local) ==> target == remote
    ensures !EndsWith(remote, local) ==>
      StartsWith(target, remote) && EndsWith(target, LastSegment(local))
      && |target| <= |remote| + 1 + |LastSegment(local)|
  {
    if EndsWith(remote, local) then remote
    else PosixJoin(remote, LastSegment(local))
  }

  /** A joined target keeps the file name of `local` as its own last segment. */
  lemma PushKeepsName(local: string, remote: string)
    requires !EndsWith(remote, local)
    ensures LastSegment(PushTarget(local, remote)) == LastSegment(local)
  {
    var name := LastSegment(local);
    if remote == "" {
      assert PushTarget(local, remote) == name;
      SplitWithoutSep(name, '/');
    } else if EndsWith(remote, "/") {
      var head := remote[..|remote| - 1];
      assert remote == head + ['/'];
      assert PushTarget(local, remote) == head + ['/'] + name;
      SplitLastAfterSep(head, name, '/');
    } else {
      assert PushTarget(local, remote) == remote + ['/'] + name;
      SplitLastAfterSep(remote, name, '/');
    }
  }

  /** Why `push` stops before any transfer. */
  datatype PushError = PushNoDevices | MissingPath | NotAbsolutePath(remote: string)

  /** The checks of `push` and the remote path they lead to. */
  function PushPlan(listed: nat, local: string, remote: string): (r: Result<string, PushError>)
    ensures r.Ok? <==> listed > 0 && local != "" && IsAbsolute(remote)
    ensures r == Err(MissingPath) <==> listed > 0 && (local == "" || remote == "")
  {
    if listed == 0 then Err(PushNoDevices)
    else if local == "" || remote == "" then Err(MissingPath)
    else if !IsAbsolute(remote) then Err(NotAbsolutePath(remote))
    else Ok(PushTarget(local, remote))
  }

  /** Every planned target is an absolute path under `remote`. */
  lemma PushPlanAbsolute(listed: nat, local: string, remote: string)
    ensures PushPlan(listed, local, remote).Ok? <==> listed > 0 && local != "" && IsAbsolute(remote)
    ensures PushPlan(listed, local, remote).Ok? ==>
      IsAbsolute(PushPlan(listed, local, remote).value) && StartsWith(PushPlan(listed, local, remote).value, remote)
  {
  }

  // ---------------------------------------------------------------------
  // clear
  // ---------------------------------------------------------------------

  /** The `clear` command: the cache directory is removed with everything in it. */
  method ClearCache(cache: CacheDir)
    modifies cache
    ensures cache.Valid()
    ensures cache.files == map[]
  {
    cache.Clear();
  }
}
