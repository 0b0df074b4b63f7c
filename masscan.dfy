/**
 * The `masscan` command of main.py: the IPv4 argument checks made before
 * the scanner is launched, and the loop that reads the scanner's output
 * line by line and updates the two text columns and the progress value.
 */
module Masscan {
  import opened Wrappers
  import opened PyStr
  import Utils

  // ---------------------------------------------------------------------
  // Argument checks
  // ---------------------------------------------------------------------

  /** How the checks end: accepted, or the error that stops the command. */
  datatype NetCheck =
    | Accepted
    | MissingArguments               // `not net or not port`
    | BadAddress(network: string)    // "... is not a valid IPV4 address."
    | NotAnInteger(component: string) // `int(component)` raises ValueError
    | NoMask                         // `socket_components[1]` raises IndexError
    | BadMask(mask: string)          // "... is not a valid representation of a bit mask"

  /** The range test as written, `0 > v > 255`: a chained comparison no integer satisfies. */
  function RangeRejectsAsWritten(v: int): (rejects: bool)
    ensures !rejects
  {
    0 > v > 255
  }

  /** The range test evidently meant: reject a component outside 0..255. */
  function RangeRejectsIntended(v: int): bool {
    v < 0 || v > 255
  }

  /** `components[i]` is the first component `int()` refuses. */
  predicate RefusedFirstAt(components: seq<string>, i: int) {
    0 <= i < |components| && ParseInt(components[i]).None?
    && forall j :: 0 <= j < i ==> ParseInt(components[j]).Some?
  }

  /** Past a first component `int()` accepts, the first refused one of the rest is the first refused one overall. */
  lemma RefusalShift(components: seq<string>)
    requires components != [] && ParseInt(components[0]).Some?
    ensures forall k :: RefusedFirstAt(components[1..], k) ==>
      RefusedFirstAt(components, k + 1) && components[k + 1] == components[1..][k]
  {
    forall k | RefusedFirstAt(components[1..], k)
      ensures RefusedFirstAt(components, k + 1) && components[k + 1] == components[1..][k]
    {
      forall j | 0 <= j < k + 1 ensures ParseInt(components[j]).Some? {
        if j > 0 {
          assert components[j] == components[1..][j - 1];
        }
      }
    }
  }

  /** The loop over the dot-components: the first one `int()` refuses or the range test rejects. */
  function ComponentsCheck(network: string, components: seq<string>, strict: bool): (r: NetCheck)
    ensures r == Accepted || r == BadAddress(network) || r.NotAnInteger?
    ensures r.NotAnInteger? ==> r.component in components && ParseInt(r.component).None?
    ensures r.NotAnInteger? ==> exists i :: RefusedFirstAt(components, i) && components[i] == r.component
    ensures !strict ==> !r.BadAddress?
    decreases |components|
  {
    if components == [] then Accepted
    else match ParseInt(components[0])
      case None =>
        assert RefusedFirstAt(components, 0);
        NotAnInteger(components[0])
      case Some(v) =>
        if (if strict then RangeRejectsIntended(v) else RangeRejectsAsWritten(v)) then BadAddress(network)
        else
          RefusalShift(components);
          ComponentsCheck(network, components[1..], strict)
  }

  function CheckNetWith(net: string, port: string, ipv6: bool, strict: bool): NetCheck {
    if net == "" || port == "" then MissingArguments
    else if ipv6 then Accepted
    else
      var socketComponents := Split(net, '/');
      var network := socketComponents[0];
      var components := Split(network, '.');
      if |components| != 4 then BadAddress(network)
      else
        var verdict := ComponentsCheck(network, components, strict);
        if verdict != Accepted then verdict
        else if |socketComponents| < 2 then NoMask
        else if |socketComponents[1]| > 2 then BadMask(socketComponents[1])
        else Accepted
  }

  /** The checks of main.py as written. */
  function CheckNet(net: string, port: string, ipv6: bool): (r: NetCheck)
    ensures r == MissingArguments <==> net == "" || port == ""
    ensures ipv6 ==> r == MissingArguments || r == Accepted
    ensures r.BadAddress? ==> r.network == Network(net) && |Split(r.network, '.')| != 4
  {
    CheckNetWith(net, port, ipv6, false)
  }

  /** The checks with the range test corrected. */
  function CheckNetStrict(net: string, port: string, ipv6: bool): (r: NetCheck)
    ensures r == MissingArguments <==> net == "" || port == ""
    ensures ipv6 ==> r == MissingArguments || r == Accepted
    ensures r.BadAddress? ==> r.network == Network(net)
  {
    CheckNetWith(net, port, ipv6, true)
  }

  /** The network part of `net` and its dot-components. */
  function Network(net: string): string {
    Split(net, '/')[0]
  }

  function Components(net: string): seq<string> {
    Split(Network(net), '.')
  }

  predicate IsInteger(component: string) {
    ParseInt(component).Some?
  }

  predicate IsOctet(component: string) {
    ParseInt(component).Some? && 0 <= ParseInt(component).value <= 255
  }

  predicate AllIntegers(components: seq<string>) {
    forall i :: 0 <= i < |components| ==> IsInteger(components[i])
  }

  predicate AllOctets(components: seq<string>) {
    forall i :: 0 <= i < |components| ==> IsOctet(components[i])
  }

  lemma {:induction false} ComponentsAsWritten(network: string, components: seq<string>)
    ensures ComponentsCheck(network, components, false) == Accepted <==> AllIntegers(components)
    ensures ComponentsCheck(network, components, false) != BadAddress(network)
  {
    AcceptedAllIntegers(network, components);
    AllIntegersAccepted(network, components);
  }

  /** As written, accepted components are all integers. */
  lemma {:induction false} AcceptedAllIntegers(network: string, components: seq<string>)
    ensures ComponentsCheck(network, components, false) == Accepted ==> AllIntegers(components)
    decreases |components|
  {
    if components != [] && ComponentsCheck(network, components, false) == Accepted {
      assert ParseInt(components[0]).Some?;
      AcceptedAllIntegers(network, components[1..]);
      forall i | 1 <= i < |components|
        ensures IsInteger(components[i])
      {
        assert components[i] == components[1..][i - 1];
      }
    }
  }

  /** As written, components that are all integers are accepted, whatever their values. */
  lemma {:induction false} AllIntegersAccepted(network: string, components: seq<string>)
    ensures AllIntegers(components) ==> ComponentsCheck(network, components, false) == Accepted
    decreases |components|
  {
    if components != [] && AllIntegers(components) {
      assert IsInteger(components[0]);
      assert AllIntegers(components[1..]) by {
        forall i | 0 <= i < |components| - 1
          ensures IsInteger(components[1..][i])
        {
          assert components[1..][i] == components[i + 1];
        }
      }
      AllIntegersAccepted(network, components[1..]);
    }
  }

  lemma {:induction false} ComponentsStrict(network: string, components: seq<string>)
    ensures ComponentsCheck(network, components, true) == Accepted ==> AllOctets(components)
    decreases |components|
  {
    if components != [] && ComponentsCheck(network, components, true) == Accepted {
      var p := ParseInt(components[0]);
      assert p.Some? && !RangeRejectsIntended(p.value);
      ComponentsStrict(network, components[1..]);
      forall i | 1 <= i < |components|
        ensures IsOctet(components[i])
      {
        assert components[i] == components[1..][i - 1];
      }
    }
  }

  /**
   * As written, an IPv4 net is accepted exactly when both arguments are
   * given, the network has four dot-components that are all integers,
   * and a mask of at most two characters follows the `/`: the value of a
   * component never matters.
   */
  lemma CheckNetAccepts(net: string, port: string)
    ensures CheckNet(net, port, false) == Accepted <==>
      net != "" && port != "" && |Components(net)| == 4 && AllIntegers(Components(net))
      && |Split(net, '/')| >= 2 && |Split(net, '/')[1]| <= 2
    ensures CheckNet(net, port, false) == BadAddress(Network(net)) <==>
      net != "" && port != "" && |Components(net)| != 4
  {
    ComponentsAsWritten(Network(net), Components(net));
  }

  /** With the corrected test every accepted IPv4 component lies in 0..255. */
  lemma CheckNetStrictOctets(net: string, port: string)
    requires CheckNetStrict(net, port, false) == Accepted
    ensures |Components(net)| == 4 && AllOctets(Components(net))
  {
    ComponentsStrict(Network(net), Components(net));
  }

  /** A non-empty run of decimal digits, which `int()` accepts. */
  predicate DigitString(s: string) {
    |s| > 0 && AllDigits(s)
  }

  /** The dotted network `a.b.c.d`. */
  function Dotted(a: string, b: string, c: string, d: string): string {
    Join([a, b, c, d], '.')
  }

  /** `a.b.c.d/m` splits into the network and the mask, the network into its four components. */
  lemma SplitDotted(a: string, b: string, c: string, d: string, mask: string)
    requires DigitString(a) && DigitString(b) && DigitString(c) && DigitString(d) && DigitString(mask)
    ensures Split(Dotted(a, b, c, d) + ['/'] + mask, '/') == [Dotted(a, b, c, d), mask]
    ensures Components(Dotted(a, b, c, d) + ['/'] + mask) == [a, b, c, d]
  {
    var parts := [a, b, c, d];
    assert forall i :: 0 <= i < |parts| ==> DigitString(parts[i]);
    SplitJoin(parts, '.');
    JoinExcludes(parts, '.', '/');
    SplitWithoutSep(mask, '/');
    SplitField(Dotted(a, b, c, d), mask, '/');
  }

  lemma DigitInteger(s: string)
    requires DigitString(s)
    ensures IsInteger(s)
  {
    ParseIntDigits(s);
  }

  lemma DigitComponents(cs: seq<string>)
    requires forall i :: 0 <= i < |cs| ==> DigitString(cs[i])
    ensures AllIntegers(cs)
  {
    forall i | 0 <= i < |cs|
      ensures IsInteger(cs[i])
    {
      DigitInteger(cs[i]);
    }
  }

  /**
   * Every `a.b.c.d/m` made of digit strings, with a mask of at most two
   * digits, passes the checks as written, whatever the components' values:
   * `300.1.2.3/24` among them.
   */
  lemma OutOfRangeAccepted(a: string, b: string, c: string, d: string, mask: string, port: string)
    requires DigitString(a) && DigitString(b) && DigitString(c) && DigitString(d)
    requires DigitString(mask) && |mask| <= 2 && port != ""
    ensures CheckNet(Dotted(a, b, c, d) + ['/'] + mask, port, false) == Accepted
  {
    SplitDotted(a, b, c, d, mask);
    DigitComponents([a, b, c, d]);
    CheckNetAccepts(Dotted(a, b, c, d) + ['/'] + mask, port);
  }

  /** The corrected checks reject such a network when its first component exceeds 255. */
  lemma OutOfRangeRejectedStrict(a: string, b: string, c: string, d: string, mask: string, port: string)
    requires DigitString(a) && DigitString(b) && DigitString(c) && DigitString(d)
    requires DigitString(mask) && port != ""
    requires DigitsValue(a) > 255
    ensures CheckNetStrict(Dotted(a, b, c, d) + ['/'] + mask, port, false) == BadAddress(Dotted(a, b, c, d))
  {
    SplitDotted(a, b, c, d, mask);
    ParseIntDigits(a);
    assert ComponentsCheck(Dotted(a, b, c, d), [a, b, c, d], true) == BadAddress(Dotted(a, b, c, d));
  }

  // ---------------------------------------------------------------------
  // Scanner output
  // ---------------------------------------------------------------------

  /** What one line of the scanner's output does to the display. */
  datatype LineEvent =
    | Forwarded(text: string)                    // printed as a SUBPROCESS line
    | Suppressed                                 // white-space-led line without `%`
    | WaitingUpdate(waiting: string, progress: string)
    | FoundUpdate(found: string, progress: string)
    | MissingField                               // `fields[2]` or `fields[3]` raises IndexError

  predicate StartsWithSpace(line: string) {
    |line| > 0 && IsSpace(line[0])
  }

  /**
   * `field[:field.rfind('%')]`: the text before the last `%`, which the
   * program hands to `float`; without a `%` the last character is dropped.
   */
  function ProgressText(field: string): (p: string)
    ensures StartsWith(field, p)
    ensures '%' in field ==> |p| < |field| && field[|p|] == '%' && '%' !in field[|p| + 1..]
    ensures '%' !in field && field != "" ==> p == field[..|field| - 1]
    ensures field == "" ==> p == ""
  {
    SliceTo(field, RFind(field, '%'))
  }

  /** The effect of one line, as the body of the `while readline` loop decides it. */
  function ClassifyLine(line: string): (e: LineEvent)
    ensures e.Forwarded? || e.Suppressed? <==> '%' !in line
    ensures e.Forwarded? ==> e.text == line
  {
    if '%' !in line then
      if StartsWithSpace(line) then Suppressed else Forwarded(line)
    else
      var fields := Split(line, ',');
      if |fields| < 3 then MissingField
      else if Contains(fields[2], "waiting") then
        WaitingUpdate(Replace(Strip(fields[2]), "-secs", "s"), ProgressText(fields[1]))
      else if |fields| < 4 then MissingField
      else FoundUpdate(Upper(Replace(Strip(fields[3]), "\n", "")), ProgressText(fields[1]))
  }

  /**
   * A line without `%` is suppressed exactly when it starts with white
   * space and forwarded verbatim otherwise; a `%` line is never printed;
   * the column updates come from a line with the fields they read, and
   * take the progress from the second field.
   */
  lemma ClassifyLineEvents(line: string)
    ensures '%' !in line ==> (ClassifyLine(line) == Suppressed <==> StartsWithSpace(line))
    ensures '%' !in line ==> (ClassifyLine(line) == Forwarded(line) <==> !StartsWithSpace(line))
    ensures '%' in line ==> !ClassifyLine(line).Forwarded? && !ClassifyLine(line).Suppressed?
    ensures ClassifyLine(line).WaitingUpdate? ==>
      var fields := Split(line, ',');
      |fields| >= 3 && Contains(fields[2], "waiting") && ClassifyLine(line).progress == ProgressText(fields[1])
    ensures ClassifyLine(line).FoundUpdate? ==>
      var fields := Split(line, ',');
      |fields| >= 4 && !Contains(fields[2], "waiting") && ClassifyLine(line).progress == ProgressText(fields[1])
  {
  }

  /**
   * A `%` line raises IndexError exactly when it has fewer than two commas,
   * or exactly two and its third field lacks `waiting` (so `fields[3]` is read).
   */
  lemma ClassifyMissingField(line: string)
    ensures ClassifyLine(line) == MissingField <==>
      '%' in line && (CountChar(line, ',') < 2
                      || (CountChar(line, ',') == 2 && !Contains(Split(line, ',')[2], "waiting")))
  {
  }

  /** The found text carries no newline and no lower-case ASCII letter. */
  lemma ClassifyFoundClean(line: string)
    requires ClassifyLine(line).FoundUpdate?
    ensures '\n' !in ClassifyLine(line).found
    ensures forall i :: 0 <= i < |ClassifyLine(line).found| ==> !('a' <= ClassifyLine(line).found[i] <= 'z')
  {
    var cleaned := Replace(Strip(Split(line, ',')[3]), "\n", "");
    ReplaceRemovesChar(Strip(Split(line, ',')[3]), '\n');
    assert ClassifyLine(line).found == Upper(cleaned);
    UpperKeepsOut(cleaned, '\n');
  }

  /**
   * A `%` line read through its comma fields `fs`: the third field decides
   * between the waiting column (stripped, `-secs` shortened to `s`) and the
   * found column (the fourth field stripped, newlines removed, upper-cased),
   * and the second field gives the progress.
   */
  lemma StatusFields(fs: seq<string>)
    requires |fs| >= 3 && forall i :: 0 <= i < |fs| ==> ',' !in fs[i]
    requires '%' in Join(fs, ',')
    ensures Contains(fs[2], "waiting") ==>
      ClassifyLine(Join(fs, ',')) == WaitingUpdate(Replace(Strip(fs[2]), "-secs", "s"), ProgressText(fs[1]))
    ensures !Contains(fs[2], "waiting") && |fs| >= 4 ==>
      ClassifyLine(Join(fs, ',')) == FoundUpdate(Upper(Replace(Strip(fs[3]), "\n", "")), ProgressText(fs[1]))
    ensures !Contains(fs[2], "waiting") && |fs| == 3 ==> ClassifyLine(Join(fs, ',')) == MissingField
  {
    SplitJoin(fs, ',');
  }

  /**
   * A line shaped `p%,,waiting...`: the `%` sits in the first field, but
   * the progress is read from the empty second field, so it is empty.
   */
  lemma EmptyProgressField(fs: seq<string>)
    requires |fs| >= 3 && forall i :: 0 <= i < |fs| ==> ',' !in fs[i]
    requires '%' in fs[0] && fs[1] == "" && Contains(fs[2], "waiting")
    ensures ClassifyLine(Join(fs, ',')) == WaitingUpdate(Replace(Strip(fs[2]), "-secs", "s"), "")
    ensures Raises(ClassifyLine(Join(fs, ',')))
  {
    EmptyNotFloat();
    assert Join(fs, ',') == fs[0] + [','] + Join(fs[1..], ',');
    assert '%' in Join(fs, ',') by {
      var k :| 0 <= k < |fs[0]| && fs[0][k] == '%';
      assert Join(fs, ',')[k] == '%';
    }
    StatusFields(fs);
  }

  /**
   * Such a line ends the command: the waiting column is set, then
   * `float('')` raises before the progress moves and before any later line
   * is read.
   */
  lemma EmptyProgressStops(st: ScanState, fs: seq<string>, rest: seq<string>)
    requires |fs| >= 3 && forall i :: 0 <= i < |fs| ==> ',' !in fs[i]
    requires '%' in fs[0] && fs[1] == "" && Contains(fs[2], "waiting")
    ensures Monitor(st, [Join(fs, ',')] + rest)
            == ScanRun(st.(waiting := Replace(Strip(fs[2]), "-secs", "s")), true)
  {
    EmptyProgressField(fs);
    EmptyNotFloat();
    var line := Join(fs, ',');
    assert line != "" by {
      assert line == fs[0] + [','] + Join(fs[1..], ',');
    }
    assert ([line] + rest)[0] == line;
  }

  /** The waiting text ends in `s` where it ended in `-secs`; the text before is rewritten as on its own. */
  lemma {:induction false} ShortenSecs(t: string)
    ensures Replace(t + "-secs", "-secs", "s") == Replace(t, "-secs", "s") + "s"
    decreases |t|
  {
    var x := "-secs";
    var u := t + x;
    if |t| == 0 {
      assert u == x && u[..5] == x && u[5..] == "";
    } else if |t| >= 5 && t[..5] == x {
      assert u[..5] == x;
      assert u[5..] == t[5..] + x;
      ShortenSecs(t[5..]);
    } else {
      assert u[..5] != x by {
        if |t| < 5 {
          assert u[..5][|t|] == '-' && x[|t|] != '-';
        } else {
          assert u[..5] == t[..5];
        }
      }
      assert u[1..] == t[1..] + x;
      ShortenSecs(t[1..]);
      if |t| < 5 {
        assert Replace(t[1..], x, "s") == t[1..];
        assert [t[0]] + t[1..] == t;
      }
    }
  }

  /** The progress of ` 50.00% done` is ` 50.00`. */
  lemma HalfDone()
    ensures ProgressText(" 50.00% done") == " 50.00"
  {
    var field := " 50.00% done";
    assert field[6] == '%';
    assert '%' !in field[7..];
    assert RFind(field, '%') == 6;
  }

  /** The display the loop maintains: the two column texts, the progress and the forwarded lines. */
  datatype ScanState = ScanState(waiting: string, found: string, progress: Option<string>, printed: seq<string>)

  function Apply(st: ScanState, e: LineEvent): ScanState {
    match e
    case Forwarded(text) => st.(printed := st.printed + [text])
    case Suppressed => st
    case WaitingUpdate(w, p) => st.(waiting := w, progress := if IsFloatText(p) then Some(p) else st.progress)
    case FoundUpdate(f, p) => st.(found := f, progress := if IsFloatText(p) then Some(p) else st.progress)
    case MissingField => st
  }

  /**
   * The line raises out of the loop: IndexError for a field it lacks, or
   * ValueError when `float()` refuses the progress text, after the column
   * has been set.
   */
  predicate Raises(e: LineEvent) {
    e.MissingField? || ((e.WaitingUpdate? || e.FoundUpdate?) && !IsFloatText(e.progress))
  }

  /** The end of the loop: the state it leaves, and whether an exception ended it. */
  datatype ScanRun = ScanRun(final: ScanState, crashed: bool)

  /** The loop over `readline()` results; it stops at the first empty read (end of stream). */
  function Monitor(st: ScanState, stream: seq<string>): (r: ScanRun)
    ensures r.crashed ==> EofIndex(stream) > 0
    decreases |stream|
  {
    if stream == [] || stream[0] == "" then ScanRun(st, false)
    else
      var e := ClassifyLine(stream[0]);
      if Raises(e) then ScanRun(Apply(st, e), true)
      else Monitor(Apply(st, e), stream[1..])
  }

  /** How many reads the loop handles before the end of the stream. */
  function EofIndex(stream: seq<string>): (n: nat)
    ensures n <= |stream|
    ensures forall i :: 0 <= i < n ==> stream[i] != ""
    ensures n < |stream| ==> stream[n] == ""
  {
    if stream == [] || stream[0] == "" then 0 else 1 + EofIndex(stream[1..])
  }

  /** What one line contributes to the forwarded lines: itself when it has no `%` and no leading white space. */
  function Echoed(line: string): seq<string> {
    if '%' !in line && !StartsWithSpace(line) then [line] else []
  }

  /** The lines the loop forwards: no `%` and not led by white space. */
  function ForwardedLines(lines: seq<string>): seq<string> {
    if lines == [] then [] else Echoed(lines[0]) + ForwardedLines(lines[1..])
  }

  /**
   * The loop crashes exactly when some line before the end of the stream
   * lacks a field it reads or carries a progress text `float()` refuses.
   */
  lemma {:induction false} MonitorCrashes(st: ScanState, stream: seq<string>)
    ensures Monitor(st, stream).crashed <==>
      exists i :: 0 <= i < EofIndex(stream) && Raises(ClassifyLine(stream[i]))
    decreases |stream|
  {
    if stream != [] && stream[0] != "" && !Raises(ClassifyLine(stream[0])) {
      MonitorCrashes(Apply(st, ClassifyLine(stream[0])), stream[1..]);
      LineBeforeEofShift(stream, line => Raises(ClassifyLine(line)));
    }
  }

  /** Past a first line without `p`, a line with `p` before the end is one of the rest of the stream. */
  lemma LineBeforeEofShift(stream: seq<string>, p: string -> bool)
    requires stream != [] && stream[0] != "" && !p(stream[0])
    ensures (exists i :: 0 <= i < EofIndex(stream) && p(stream[i])) <==>
      (exists i :: 0 <= i < EofIndex(stream[1..]) && p(stream[1..][i]))
  {
    var rest := stream[1..];
    assert EofIndex(stream) == 1 + EofIndex(rest);
    if i :| 0 <= i < EofIndex(rest) && p(rest[i]) {
      assert stream[i + 1] == rest[i];
    }
    if i :| 0 <= i < EofIndex(stream) && p(stream[i]) {
      assert i > 0 && stream[i] == rest[i - 1];
    }
  }

  /** One line adds itself to the printed lines exactly when it has no `%` and no leading white space. */
  lemma ApplyPrinted(st: ScanState, line: string)
    ensures Apply(st, ClassifyLine(line)).printed == st.printed + Echoed(line)
  {
    ClassifyLineEvents(line);
  }

  /** A line read before the end of the stream that does not crash hands the rest to the next iteration. */
  lemma MonitorStep(st: ScanState, stream: seq<string>)
    requires stream != [] && stream[0] != "" && !Monitor(st, stream).crashed
    ensures !Raises(ClassifyLine(stream[0]))
    ensures Monitor(st, stream) == Monitor(Apply(st, ClassifyLine(stream[0])), stream[1..])
  {
  }

  /** The forwarded lines among those read before the first empty read. */
  function ForwardedUntilEof(stream: seq<string>): seq<string>
    decreases |stream|
  {
    if stream == [] || stream[0] == "" then [] else Echoed(stream[0]) + ForwardedUntilEof(stream[1..])
  }

  /** The forwarded lines before the first empty read are those of the prefix `EofIndex` delimits. */
  lemma {:induction false} ForwardedUntilEofPrefix(stream: seq<string>)
    ensures ForwardedUntilEof(stream) == ForwardedLines(stream[..EofIndex(stream)])
    decreases |stream|
  {
    if stream == [] || stream[0] == "" {
      assert stream[..EofIndex(stream)] == [];
    } else {
      ForwardedUntilEofPrefix(stream[1..]);
      var prefix := stream[..EofIndex(stream)];
      assert prefix[1..] == stream[1..][..EofIndex(stream[1..])];
    }
  }

  /** The printed lines of a run that does not crash, by induction over the stream. */
  lemma {:induction false} MonitorForwardsUntilEof(st: ScanState, stream: seq<string>)
    requires !Monitor(st, stream).crashed
    ensures Monitor(st, stream).final.printed == st.printed + ForwardedUntilEof(stream)
    decreases |stream|
  {
    if stream != [] && stream[0] != "" {
      MonitorStep(st, stream);
      ApplyPrinted(st, stream[0]);
      MonitorForwardsUntilEof(Apply(st, ClassifyLine(stream[0])), stream[1..]);
    }
  }

  /**
   * A run that does not crash forwards, in order, exactly the lines
   * without `%` that do not start with white space.
   */
  lemma MonitorForwards(st: ScanState, stream: seq<string>)
    requires !Monitor(st, stream).crashed
    ensures Monitor(st, stream).final.printed == st.printed + ForwardedLines(stream[..EofIndex(stream)])
  {
    MonitorForwardsUntilEof(st, stream);
    ForwardedUntilEofPrefix(stream);
  }

  /**
   * The `while readline` loop of the masscan command: a line without `%`
   * is forwarded unless it starts with white space; a `%` line splits on
   * `,` and updates the waiting column or the found column, then the
   * progress. Reading stops at the first empty read; a missing field
   * raises IndexError, and a progress text `float()` refuses raises
   * ValueError once the column is set, and either ends the command.
   */
  method MonitorScan(stream: seq<string>, found: Utils.TextColumn, waiting: Utils.TextColumn)
    returns (progress: Option<string>, printed: seq<string>, crashed: bool)
    requires found != waiting
    modifies found`text, waiting`text
    ensures var run := Monitor(ScanState(old(waiting.text), old(found.text), None, []), stream);
      && waiting.text == run.final.waiting && found.text == run.final.found
      && progress == run.final.progress && printed == run.final.printed
      && crashed == run.crashed
  {
    ghost var start := ScanState(waiting.text, found.text, None, []);
    progress, printed, crashed := None, [], false;
    var i := 0;
    while i < |stream| && stream[i] != ""
      invariant 0 <= i <= |stream|
      invariant Monitor(start, stream)
                == Monitor(ScanState(waiting.text, found.text, progress, printed), stream[i..])
    {
      var line := stream[i];
      assert stream[i..][1..] == stream[i + 1..];
      if '%' !in line {
        if !StartsWithSpace(line) {
          printed := printed + [line];
        }
      } else {
        var fields := Split(line, ',');
        if |fields| < 3 {
          crashed := true;
          return;
        }
        if Contains(fields[2], "waiting") {
          waiting.SetText(Replace(Strip(fields[2]), "-secs", "s"));
        } else {
          if |fields| < 4 {
            crashed := true;
            return;
          }
          found.SetText(Upper(Replace(Strip(fields[3]), "\n", "")));
        }
        var p := ProgressText(fields[1]);
        if !IsFloatText(p) {
          crashed := true;
          return;
        }
        progress := Some(p);
      }
      i := i + 1;
    }
  }
}
