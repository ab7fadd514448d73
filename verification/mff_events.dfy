/**
 * `_read_mff_events`: collecting the event markers of an MFF recording
 * directory, the distinct event codes in order of first appearance, and the
 * start samples of each code.
 *
 * The directory is a list of already parsed `*.xml` files; the date parser is
 * a parameter (`Clock`) mapping the text handed to `strptime` to a time in
 * microseconds, or to nothing when `strptime` would raise ValueError.
 */
module MffEvents {
  import opened Wrappers
  import opened PyStr
  import opened Collections
  import opened Xml

  /** `datetime.strptime(text, ...)`: a time in microseconds, or None where it raises ValueError. */
  type Clock = string -> Option<int>

  /** One `*.xml` file of the recording: its name without directory and extension, and its root element. */
  datatype XmlFile = XmlFile(name: string, root: Element)

  /**
   * A marker as `_read_mff_events` records it: the event code, the start in
   * microseconds after the recording start, and the start sample.
   */
  datatype Marker = Marker(name: Value, start: int, startSample: int)

  /** The files of one directory have distinct names. */
  predicate DistinctNames(files: seq<XmlFile>)
  {
    forall i, j :: 0 <= i < j < |files| ==> files[i].name != files[j].name
  }

  /** `x[:7] == 'Events_'`. */
  predicate IsEventsFile(name: string)
  {
    |name| >= 7 && name[..7] == "Events_"
  }

  /** `s[2:]`. */
  function Skip2<T>(s: seq<T>): seq<T>
  {
    if |s| <= 2 then [] else s[2..]
  }

  /** `int(np.fix(x / d))` for d > 0: the quotient rounded toward zero. */
  function TruncDiv(x: int, d: int): (q: int)
    requires d > 0
    ensures x >= 0 ==> 0 <= q * d <= x < q * d + d
    ensures x < 0 ==> q * d - d < x <= q * d <= 0
  {
    if x >= 0 then DivBounds(x, d); x / d
    else DivBounds(-x, d); -((-x) / d)
  }

  lemma DivBounds(n: nat, d: int)
    requires d > 0
    ensures 0 <= (n / d) * d <= n < (n / d) * d + d
  {
    var q := n / d;
    assert n == q * d + n % d;
    assert q >= 0;
  }

  // ----- the parsed directory -----

  /** The pairs `orig[name] = _parse_xml(file)` is built from, in directory order. */
  function Parsed(files: seq<XmlFile>): (ps: seq<(string, seq<Value>)>)
    ensures |ps| == |files|
  {
    seq(|files|, i requires 0 <= i < |files| => (files[i].name, ListOf(files[i].root)))
  }

  /** The dict `orig`: each file name mapped to its parsed list. */
  function Orig(files: seq<XmlFile>): map<string, seq<Value>>
  {
    Update(map[], Parsed(files))
  }

  /** With distinct file names, `orig[name]` is the parsed list of the file with that name. */
  lemma OrigAt(files: seq<XmlFile>, i: nat)
    requires DistinctNames(files) && i < |files|
    ensures files[i].name in Orig(files) && Orig(files)[files[i].name] == Parsed(files)[i].1
  {
    UpdateLastWins(map[], Parsed(files));
    assert LastWithKey(Parsed(files), i);
  }

  // ----- the recording start -----

  /** `'recordTime' in item` for an item of `_xml2list`'s output, which is a dict or a list. */
  predicate HasRecordTime(item: Value)
  {
    match item
    case Dict(entries) => "recordTime" in entries
    case List(items) => Str("recordTime") in items
    case _ => false
  }

  /** `_ns2py_time(v)`: the slicing of the text, then the date parser. */
  function NsToTime(v: Value, clock: Clock): Result<int>
  {
    match v
    case Str(s) =>
      (match clock(NsTimeText(s))
       case None => Err(ValueError)
       case Some(t) => Ok(t))
    case _ => Err(TypeError)
  }

  /**
   * `_ns2py_time` reads the date and the time of day to the microsecond: the
   * character between them and everything after the 26th character (the UTC
   * offset) play no part. A value that is not a string raises TypeError.
   */
  lemma NsToTimeIgnoresZone(date: string, sep: char, time: string, zone: string, other: Value, clock: Clock)
    requires |date| == 10 && |time| == 15
    ensures NsToTime(Str(date + [sep] + time + zone), clock) ==
      if clock(date + " " + time).Some? then Ok(clock(date + " " + time).value) else Err(ValueError)
    ensures !other.Str? ==> NsToTime(other, clock) == Err(TypeError)
  {
    var s := date + [sep] + time + zone;
    assert s[..26] == date + [sep] + time;
    assert (date + [sep] + time)[10 := ' '] == date + " " + time;
  }

  /**
   * The loop over `orig['info']`: the time of the first item holding a
   * `recordTime`, or None when no item does (and `start_time` stays unbound).
   */
  function StartTime(items: seq<Value>, clock: Clock): (r: Result<Option<int>>)
    ensures r == Ok(None) <==> forall i :: 0 <= i < |items| ==> !HasRecordTime(items[i])
  {
    if items == [] then Ok(None)
    else if HasRecordTime(items[0]) then
      if items[0].Dict? then
        (match NsToTime(items[0].entries["recordTime"], clock)
         case Err(e) => Err(e)
         case Ok(t) => Ok(Some(t)))
      else Err(TypeError)
    else StartTime(items[1..], clock)
  }

  // ----- the markers -----

  /** The marker one event of an `Events_*` file gives, or the exception it raises. */
  function MarkerOf(event: Value, start: Option<int>, sfreq: int, clock: Clock): Result<Marker>
  {
    if !event.Dict? then Err(TypeError)
    else if "beginTime" !in event.entries then Err(KeyError)
    else
      match NsToTime(event.entries["beginTime"], clock)
      case Err(e) => Err(e)
      case Ok(eventStart) =>
        if start.None? then Err(NameError)
        else if "code" !in event.entries then Err(KeyError)
        else if "duration" !in event.entries then Err(KeyError)
        else if !event.entries["duration"].Str? then Err(TypeError)
        else
          var us := eventStart - start.value;
          Ok(Marker(event.entries["code"], us, TruncDiv(us * sfreq, 1_000_000)))
  }

  /** The events of the `Events_*` files in directory order, each file without its first two entries. */
  function EventStream(ps: seq<(string, seq<Value>)>): seq<Value>
  {
    if ps == [] then []
    else
      var last := ps[|ps| - 1];
      EventStream(ps[..|ps| - 1]) + (if IsEventsFile(last.0) then Skip2(last.1) else [])
  }

  /** The marker (or exception) of each event. */
  function MarkerResults(events: seq<Value>, start: Option<int>, sfreq: int, clock: Clock): (rs: seq<Result<Marker>>)
    ensures |rs| == |events|
  {
    seq(|events|, i requires 0 <= i < |events| => MarkerOf(events[i], start, sfreq, clock))
  }

  /** The event codes of the markers, in marker order. */
  function Names(markers: seq<Marker>): (names: seq<Value>)
    ensures |names| == |markers|
  {
    seq(|markers|, i requires 0 <= i < |markers| => markers[i].name)
  }

  /** `[c['start_sample'] for c in markers if c['name'] == code]`. */
  function SamplesOf(markers: seq<Marker>, code: Value): seq<int>
  {
    if markers == [] then []
    else
      var last := markers[|markers| - 1];
      SamplesOf(markers[..|markers| - 1], code) + (if last.name == code then [last.startSample] else [])
  }

  /** `events_tims`: each code mapped to its start samples. */
  function Groups(markers: seq<Marker>, codes: seq<Value>): map<Value, seq<int>>
  {
    map c | c in codes :: SamplesOf(markers, c)
  }

  /** The markers `_read_mff_events` builds, or the exception it raises on the way. */
  function MarkersOfFiles(files: seq<XmlFile>, sfreq: int, clock: Clock): Result<seq<Marker>>
  {
    var orig := Orig(files);
    if "info" !in orig then Err(KeyError)
    else
      match StartTime(orig["info"], clock)
      case Err(e) => Err(e)
      case Ok(start) => Collect(MarkerResults(EventStream(Parsed(files)), start, sfreq, clock))
  }

  /** What `_read_mff_events` returns, `(events_tims, code)`, or the exception it raises. */
  function MffEventsOf(files: seq<XmlFile>, sfreq: int, clock: Clock): Result<(map<Value, seq<int>>, seq<Value>)>
  {
    match MarkersOfFiles(files, sfreq, clock)
    case Err(e) => Err(e)
    case Ok(markers) =>
      var code := Distinct(Names(markers));
      Ok((Groups(markers, code), code))
  }

  // ----- step lemmas for the loops -----

  lemma EventStreamStep(ps: seq<(string, seq<Value>)>, f: nat)
    requires f < |ps|
    ensures EventStream(ps[..f + 1]) ==
      EventStream(ps[..f]) + (if IsEventsFile(ps[f].0) then Skip2(ps[f].1) else [])
  {
    assert ps[..f + 1][..f] == ps[..f];
  }

  /** The events of two runs of files, one after the other. */
  lemma {:induction false} EventStreamAppend(a: seq<(string, seq<Value>)>, b: seq<(string, seq<Value>)>)
    ensures EventStream(a + b) == EventStream(a) + EventStream(b)
  {
    if b == [] {
      assert a + b == a;
    } else {
      var init, last := b[..|b| - 1], b[|b| - 1];
      var tail := if IsEventsFile(last.0) then Skip2(last.1) else [];
      EventStreamAppend(a, init);
      assert (a + b)[..|a + b| - 1] == a + init;
      assert (a + b)[|a + b| - 1] == last;
      assert EventStream(a + b) == EventStream(a + init) + tail;
      assert EventStream(b) == EventStream(init) + tail;
    }
  }

  /** The events of an `Events_*` file sit between those of the files before and after it. */
  lemma EventStreamAround(ps: seq<(string, seq<Value>)>, f: nat)
    requires f < |ps| && IsEventsFile(ps[f].0)
    ensures EventStream(ps) == EventStream(ps[..f]) + Skip2(ps[f].1) + EventStream(ps[f + 1..])
  {
    EventStreamStep(ps, f);
    assert ps == ps[..f + 1] + ps[f + 1..];
    EventStreamAppend(ps[..f + 1], ps[f + 1..]);
  }

  lemma MarkerResultsAppend(a: seq<Value>, b: seq<Value>, start: Option<int>, sfreq: int, clock: Clock)
    ensures MarkerResults(a + b, start, sfreq, clock) ==
      MarkerResults(a, start, sfreq, clock) + MarkerResults(b, start, sfreq, clock)
  {
  }

  /** The event stream around event e of file f. */
  lemma StreamAt(ps: seq<(string, seq<Value>)>, f: nat, e: nat)
    requires f < |ps| && IsEventsFile(ps[f].0) && e < |Skip2(ps[f].1)|
    ensures var events := Skip2(ps[f].1);
      EventStream(ps) == (EventStream(ps[..f]) + events[..e]) + [events[e]] + (events[e + 1..] + EventStream(ps[f + 1..]))
  {
    var events := Skip2(ps[f].1);
    EventStreamAround(ps, f);
    SplitAt(events, e);
    Regroup(EventStream(ps[..f]), events[..e], [events[e]], events[e + 1..], EventStream(ps[f + 1..]));
  }

  lemma SplitAt<T>(s: seq<T>, e: nat)
    requires e < |s|
    ensures s == s[..e] + [s[e]] + s[e + 1..]
  {
  }

  lemma Regroup<T>(a: seq<T>, b: seq<T>, c: seq<T>, d: seq<T>, z: seq<T>)
    ensures a + (b + c + d) + z == (a + b) + c + (d + z)
  {
  }

  /**
   * An event that raises ends `_read_mff_events` with its exception when every
   * event before it gave a marker.
   */
  lemma StopsAt(ps: seq<(string, seq<Value>)>, start: Option<int>, sfreq: int, clock: Clock,
                f: nat, e: nat, markers: seq<Marker>, err: Error)
    requires f < |ps| && IsEventsFile(ps[f].0) && e < |Skip2(ps[f].1)|
    requires Collect(MarkerResults(EventStream(ps[..f]) + Skip2(ps[f].1)[..e], start, sfreq, clock)) == Ok(markers)
    requires MarkerOf(Skip2(ps[f].1)[e], start, sfreq, clock) == Err(err)
    ensures Collect(MarkerResults(EventStream(ps), start, sfreq, clock)) == Err(err)
  {
    var events := Skip2(ps[f].1);
    var pre := EventStream(ps[..f]) + events[..e];
    var rest := events[e + 1..] + EventStream(ps[f + 1..]);
    StreamAt(ps, f, e);
    MarkerResultsAppend(pre + [events[e]], rest, start, sfreq, clock);
    MarkerResultsAppend(pre, [events[e]], start, sfreq, clock);
    var x := MarkerOf(events[e], start, sfreq, clock);
    assert MarkerResults([events[e]], start, sfreq, clock) == [x];
    CollectStops(MarkerResults(pre, start, sfreq, clock), x, MarkerResults(rest, start, sfreq, clock));
  }

  /** One more event that gives a marker: the marker is appended. */
  lemma MarkerStep(pre: seq<Value>, event: Value, start: Option<int>, sfreq: int, clock: Clock,
                   markers: seq<Marker>, marker: Marker)
    requires Collect(MarkerResults(pre, start, sfreq, clock)) == Ok(markers)
    requires MarkerOf(event, start, sfreq, clock) == Ok(marker)
    ensures Collect(MarkerResults(pre + [event], start, sfreq, clock)) == Ok(markers + [marker])
  {
    MarkerResultsAppend(pre, [event], start, sfreq, clock);
    CollectSnoc(MarkerResults(pre, start, sfreq, clock), MarkerOf(event, start, sfreq, clock));
  }

  /** The code of one more marker is listed if it is new. */
  lemma CodeStep(markers: seq<Marker>, marker: Marker)
    ensures Distinct(Names(markers + [marker])) ==
      if marker.name in Distinct(Names(markers)) then Distinct(Names(markers))
      else Distinct(Names(markers)) + [marker.name]
  {
    assert Names(markers + [marker]) == Names(markers) + [marker.name];
    DistinctSnoc(Names(markers), marker.name);
  }

  // ----- _read_mff_events -----

  /** The pairs of a file list and a dict of parsed files, in list order. */
  function Listed(names: seq<string>, orig: map<string, seq<Value>>): (ps: seq<(string, seq<Value>)>)
    requires forall k :: 0 <= k < |names| ==> names[k] in orig
    ensures |ps| == |names|
  {
    seq(|names|, i requires 0 <= i < |names| => (names[i], orig[names[i]]))
  }

  /** The markers and the distinct codes of an event stream, or the first exception. */
  function MarkersAndCodes(events: seq<Value>, start: Option<int>, sfreq: int, clock: Clock): Result<(seq<Marker>, seq<Value>)>
  {
    match Collect(MarkerResults(events, start, sfreq, clock))
    case Err(e) => Err(e)
    case Ok(markers) => Ok((markers, Distinct(Names(markers))))
  }

  /** The `for item in orig['info']` loop: the recording start, if an item holds one. */
  method FindStartTime(info: seq<Value>, clock: Clock) returns (r: Result<Option<int>>)
    ensures r == StartTime(info, clock)
  {
    var i := 0;
    while i < |info|
      invariant 0 <= i <= |info|
      invariant StartTime(info, clock) == StartTime(info[i..], clock)
    {
      if HasRecordTime(info[i]) {
        if !info[i].Dict? {
          return Err(TypeError);
        }
        var t := NsToTime(info[i].entries["recordTime"], clock);
        if t.Err? {
          return Err(t.error);
        }
        return Ok(Some(t.value));
      }
      assert info[i..][1..] == info[i + 1..];
      i := i + 1;
    }
    return Ok(None);
  }

  /**
   * The `for xml in xml_events` loop: a marker for every event of every
   * `Events_*` file after its first two entries, each new code appended to
   * `code` as it is first seen.
   */
  method CollectMarkers(names: seq<string>, orig: map<string, seq<Value>>, startTime: Option<int>, sfreq: int, clock: Clock)
    returns (r: Result<(seq<Marker>, seq<Value>)>)
    requires forall k :: 0 <= k < |names| ==> names[k] in orig
    ensures r == MarkersAndCodes(EventStream(Listed(names, orig)), startTime, sfreq, clock)
  {
    var markers: seq<Marker> := [];
    var code: seq<Value> := [];
    ghost var ps := Listed(names, orig);
    ghost var done: seq<Value> := [];
    for f := 0 to |names|
      invariant done == EventStream(ps[..f])
      invariant Collect(MarkerResults(done, startTime, sfreq, clock)) == Ok(markers)
      invariant code == Distinct(Names(markers))
    {
      EventStreamStep(ps, f);
      if IsEventsFile(names[f]) {
        var events := Skip2(orig[names[f]]);
        var step;
        ghost var e;
        step, e := CollectFileMarkers(done, events, startTime, sfreq, clock, markers, code);
        if step.Err? {
          StopsAt(ps, startTime, sfreq, clock, f, e, Collect(MarkerResults(done + events[..e], startTime, sfreq, clock)).value, step.error);
          return Err(step.error);
        }
        markers, code := step.value.0, step.value.1;
        done := done + events;
      }
    }
    assert ps[..|names|] == ps;
    return Ok((markers, code));
  }

  /**
   * The inner loop over one file's events: the markers of `events` appended to
   * those of the events before them, or the exception of its first event that
   * raises, at position `e`.
   */
  method CollectFileMarkers(ghost pre: seq<Value>, events: seq<Value>, startTime: Option<int>, sfreq: int, clock: Clock,
                            markers0: seq<Marker>, code0: seq<Value>)
    returns (r: Result<(seq<Marker>, seq<Value>)>, ghost e: nat)
    requires Collect(MarkerResults(pre, startTime, sfreq, clock)) == Ok(markers0)
    requires code0 == Distinct(Names(markers0))
    ensures r.Ok? ==>
      && Collect(MarkerResults(pre + events, startTime, sfreq, clock)) == Ok(r.value.0)
      && r.value.1 == Distinct(Names(r.value.0))
    ensures r.Err? ==>
      && e < |events|
      && Collect(MarkerResults(pre + events[..e], startTime, sfreq, clock)).Ok?
      && MarkerOf(events[e], startTime, sfreq, clock) == Err(r.error)
  {
    var markers, code := markers0, code0;
    assert pre + events[..0] == pre;
    for i := 0 to |events|
      invariant Collect(MarkerResults(pre + events[..i], startTime, sfreq, clock)) == Ok(markers)
      invariant code == Distinct(Names(markers))
    {
      var marker := MarkerOf(events[i], startTime, sfreq, clock);
      if marker.Err? {
        return Err(marker.error), i;
      }
      MarkerStep(pre + events[..i], events[i], startTime, sfreq, clock, markers, marker.value);
      CodeStep(markers, marker.value);
      AppendPrefix(pre, events, i);
      if marker.value.name !in code {
        code := code + [marker.value.name];
      }
      markers := markers + [marker.value];
    }
    assert events[..|events|] == events;
    return Ok((markers, code)), 0;
  }

  /** The `for ev in code` loop: each code mapped to the start samples of its markers, in marker order. */
  method GroupSamples(markers: seq<Marker>, code: seq<Value>) returns (eventsTims: map<Value, seq<int>>)
    ensures eventsTims == Groups(markers, code)
  {
    eventsTims := map[];
    for k := 0 to |code|
      invariant eventsTims == map c | c in code[..k] :: SamplesOf(markers, c)
    {
      var ev := code[k];
      var trigSamp: seq<int> := [];
      for n := 0 to |markers|
        invariant trigSamp == SamplesOf(markers[..n], ev)
      {
        if markers[n].name == ev {
          trigSamp := trigSamp + [markers[n].startSample];
        }
        assert markers[..n + 1][..n] == markers[..n];
      }
      assert markers[..|markers|] == markers;
      eventsTims := eventsTims[ev := trigSamp];
      assert code[..k + 1] == code[..k] + [ev];
    }
    assert code[..|code|] == code;
  }

  /** With distinct file names, listing the files through the dict `orig` gives back the parsed files. */
  lemma ListedParsed(files: seq<XmlFile>, names: seq<string>)
    requires DistinctNames(files)
    requires names == seq(|files|, i requires 0 <= i < |files| => files[i].name)
    ensures forall k :: 0 <= k < |names| ==> names[k] in Orig(files)
    ensures Listed(names, Orig(files)) == Parsed(files)
  {
    forall k | 0 <= k < |names| ensures names[k] in Orig(files) && Orig(files)[names[k]] == Parsed(files)[k].1 {
      OrigAt(files, k);
    }
  }

  /**
   * `_read_mff_events`: parse every file, find the recording start in `info`,
   * collect the markers and codes, then group the start samples by code.
   */
  method ReadMffEvents(files: seq<XmlFile>, sfreq: int, clock: Clock)
    returns (r: Result<(map<Value, seq<int>>, seq<Value>)>)
    requires DistinctNames(files)
    ensures r == MffEventsOf(files, sfreq, clock)
  {
    var orig: map<string, seq<Value>> := map[];
    var xmlFiles: seq<string> := [];
    for f := 0 to |files|
      invariant orig == Update(map[], Parsed(files)[..f])
      invariant xmlFiles == seq(f, i requires 0 <= i < f => files[i].name)
    {
      var items := Xml2List(files[f].root);
      UpdatePrefix(map[], Parsed(files), f);
      orig := orig[files[f].name := items];
      xmlFiles := xmlFiles + [files[f].name];
    }
    assert Parsed(files)[..|files|] == Parsed(files);
    if "info" !in orig {
      return Err(KeyError);
    }
    var startTime := FindStartTime(orig["info"], clock);
    if startTime.Err? {
      return Err(startTime.error);
    }
    ListedParsed(files, xmlFiles);
    var collected := CollectMarkers(xmlFiles, orig, startTime.value, sfreq, clock);
    if collected.Err? {
      return Err(collected.error);
    }
    var (markers, code) := collected.value;
    var eventsTims := GroupSamples(markers, code);
    return Ok((eventsTims, code));
  }

  // ----- what _read_mff_events returns -----

  /**
   * `code` lists every event code of the markers exactly once, in the order
   * the codes first appear; `events_tims` has exactly those codes as keys, each
   * holding the start samples of its markers.
   */
  lemma CodesAndGroups(markers: seq<Marker>)
    ensures var code := Distinct(Names(markers));
      && (forall j, k :: 0 <= j < k < |code| ==> code[j] != code[k])
      && (forall x :: x in code <==> exists i :: 0 <= i < |markers| && markers[i].name == x)
      && (forall j, k :: 0 <= j < k < |code| ==> FirstAt(Names(markers), code[j]) < FirstAt(Names(markers), code[k]))
      && Groups(markers, code).Keys == set x | x in code
      && forall x :: x in code ==> Groups(markers, code)[x] == SamplesOf(markers, x)
  {
    var names := Names(markers);
    DistinctOrder(names);
    forall x ensures x in names <==> exists i :: 0 <= i < |markers| && markers[i].name == x {
      if x in names {
        var i :| 0 <= i < |names| && names[i] == x;
        assert markers[i].name == x;
      }
      if exists i :: 0 <= i < |markers| && markers[i].name == x {
        var i :| 0 <= i < |markers| && markers[i].name == x;
        assert names[i] == x;
      }
    }
  }

  /** Which markers carry a code: the start sample of each that does. */
  function Selected(markers: seq<Marker>, code: Value): (sel: seq<Option<int>>)
    ensures |sel| == |markers|
  {
    seq(|markers|, i requires 0 <= i < |markers| => if markers[i].name == code then Some(markers[i].startSample) else None)
  }

  lemma {:induction false} SamplesAreKept(markers: seq<Marker>, code: Value)
    ensures SamplesOf(markers, code) == Keep(Selected(markers, code))
  {
    if markers != [] {
      var init := markers[..|markers| - 1];
      SamplesAreKept(init, code);
      assert Selected(markers, code)[..|markers| - 1] == Selected(init, code);
    }
  }

  /**
   * The samples of a code are those of the markers with that code, in marker
   * order: sample j comes from marker At[j], the positions increase, and every
   * marker with the code is among them.
   */
  lemma SamplesInOrder(markers: seq<Marker>, code: Value)
    ensures var samples, at := SamplesOf(markers, code), KeptAt(Selected(markers, code));
      && |at| == |samples|
      && (forall j :: 0 <= j < |at| ==>
            at[j] < |markers| && markers[at[j]].name == code && samples[j] == markers[at[j]].startSample)
      && (forall j, k :: 0 <= j < k < |at| ==> at[j] < at[k])
      && (forall i :: 0 <= i < |markers| ==> (markers[i].name == code <==> i in at))
  {
    SamplesAreKept(markers, code);
    KeepLayout(Selected(markers, code));
  }

  /** The number of samples listed for the codes. */
  function TotalSamples(markers: seq<Marker>, codes: seq<Value>): nat
  {
    if codes == [] then 0
    else TotalSamples(markers, codes[..|codes| - 1]) + |SamplesOf(markers, codes[|codes| - 1])|
  }

  lemma {:induction false} TotalSamplesSnoc(markers: seq<Marker>, m: Marker, codes: seq<Value>)
    ensures TotalSamples(markers + [m], codes) == TotalSamples(markers, codes) + multiset(codes)[m.name]
  {
    assert (markers + [m])[..|markers|] == markers;
    if codes != [] {
      var init := codes[..|codes| - 1];
      TotalSamplesSnoc(markers, m, init);
      assert codes == init + [codes[|codes| - 1]];
    }
  }

  lemma DistinctOnce<T>(codes: seq<T>, x: T)
    requires forall j, k :: 0 <= j < k < |codes| ==> codes[j] != codes[k]
    requires x in codes
    ensures multiset(codes)[x] == 1
  {
    var i :| 0 <= i < |codes| && codes[i] == x;
    assert codes == codes[..i] + [x] + codes[i + 1..];
    assert x !in codes[..i];
    assert x !in codes[i + 1..];
  }

  /** Listing distinct codes that cover every marker counts every marker once. */
  lemma {:induction false} EveryMarkerOnce(markers: seq<Marker>, codes: seq<Value>)
    requires forall j, k :: 0 <= j < k < |codes| ==> codes[j] != codes[k]
    requires forall i :: 0 <= i < |markers| ==> markers[i].name in codes
    ensures TotalSamples(markers, codes) == |markers|
  {
    if markers == [] {
      EmptyTotal(codes);
    } else {
      var init := markers[..|markers| - 1];
      var m := markers[|markers| - 1];
      EveryMarkerOnce(init, codes);
      assert markers == init + [m];
      TotalSamplesSnoc(init, m, codes);
      DistinctOnce(codes, m.name);
    }
  }

  lemma {:induction false} EmptyTotal(codes: seq<Value>)
    ensures TotalSamples([], codes) == 0
  {
    if codes != [] {
      EmptyTotal(codes[..|codes| - 1]);
    }
  }

  /** The groups of `_read_mff_events` partition the markers: their sizes add up to the number of markers. */
  lemma GroupsPartition(markers: seq<Marker>)
    ensures TotalSamples(markers, Distinct(Names(markers))) == |markers|
  {
    CodesAndGroups(markers);
    EveryMarkerOnce(markers, Distinct(Names(markers)));
  }

  // ----- _read_events -----

  /** The header dict `info` that `_read_events` reads and extends. */
  class Header {
    var lastSamps: seq<int>
    var sfreq: int
    var nSegments: int
    var nEvents: Option<int>
    var eventCodes: Option<seq<Value>>

    constructor (lastSamps: seq<int>, sfreq: int, nSegments: int)
      ensures this.lastSamps == lastSamps && this.sfreq == sfreq && this.nSegments == nSegments
      ensures nEvents == None && eventCodes == None
    {
      this.lastSamps := lastSamps;
      this.sfreq := sfreq;
      this.nSegments := nSegments;
      nEvents := None;
      eventCodes := None;
    }
  }

  /** Python's index `i` into a row of `cols` entries is valid: `-cols <= i < cols`. */
  predicate InRange(i: int, cols: int)
  {
    -cols <= i < cols
  }

  /** The entry a valid Python index `i` denotes, negative indices counting from the end. */
  function Wrap(i: int, cols: int): (j: int)
    requires InRange(i, cols)
    ensures 0 <= j < cols
    ensures i >= 0 ==> j == i
    ensures i < 0 ==> j == cols + i
    ensures j == i % cols
  {
    if i < 0 then cols + i else i
  }

  /** Some sample of the list denotes entry j. */
  predicate Marked(samples: seq<int>, cols: int, j: int)
  {
    exists k :: 0 <= k < |samples| && InRange(samples[k], cols) && Wrap(samples[k], cols) == j
  }

  /** Every code has a sample list. */
  predicate GroupsCover(eventsTims: map<Value, seq<int>>, codes: seq<Value>)
  {
    forall k :: 0 <= k < |codes| ==> codes[k] in eventsTims
  }

  /** `_read_mff_events` gives a sample list for every code it lists. */
  lemma GroupsOfResult(files: seq<XmlFile>, sfreq: int, clock: Clock)
    ensures MffEventsOf(files, sfreq, clock).Ok? ==>
      GroupsCover(MffEventsOf(files, sfreq, clock).value.0, MffEventsOf(files, sfreq, clock).value.1)
  {
  }

  /** The sample lists of the codes, row by row. */
  function Rows(eventsTims: map<Value, seq<int>>, codes: seq<Value>): (rows: seq<seq<int>>)
    requires GroupsCover(eventsTims, codes)
    ensures |rows| == |codes|
  {
    seq(|codes|, n requires 0 <= n < |codes| => eventsTims[codes[n]])
  }

  /** Every sample of every row is a valid index into a row of `cols` entries. */
  predicate AllInRange(rows: seq<seq<int>>, cols: int)
  {
    forall n, k :: 0 <= n < |rows| && 0 <= k < |rows[n]| ==> InRange(rows[n][k], cols)
  }

  lemma MarkedStep(samples: seq<int>, cols: int, k: nat, j: int)
    requires k < |samples| && InRange(samples[k], cols)
    ensures Marked(samples[..k + 1], cols, j) <==> Marked(samples[..k], cols, j) || Wrap(samples[k], cols) == j
  {
    if Marked(samples[..k + 1], cols, j) && Wrap(samples[k], cols) != j {
      var m :| 0 <= m < k + 1 && InRange(samples[..k + 1][m], cols) && Wrap(samples[..k + 1][m], cols) == j;
      assert samples[..k][m] == samples[m];
    }
    if Marked(samples[..k], cols, j) {
      var m :| 0 <= m < k && InRange(samples[..k][m], cols) && Wrap(samples[..k][m], cols) == j;
      assert samples[..k + 1][m] == samples[m];
    }
    if Wrap(samples[k], cols) == j {
      assert samples[..k + 1][k] == samples[k];
    }
  }

  /**
   * `events[n][i] = n + 1` for every sample i of row n: row n of `events` gets
   * n + 1 exactly at the entries its samples denote, or the first invalid
   * sample raises IndexError.
   */
  method MarkRow(events: array2<int>, n: nat, samples: seq<int>) returns (ok: bool)
    requires n < events.Length0
    requires forall j :: 0 <= j < events.Length1 ==> events[n, j] == 0
    modifies events
    ensures ok <==> forall k :: 0 <= k < |samples| ==> InRange(samples[k], events.Length1)
    ensures ok ==> forall j :: 0 <= j < events.Length1 ==>
      events[n, j] == if Marked(samples, events.Length1, j) then n + 1 else 0
    ensures forall m, j :: 0 <= m < events.Length0 && m != n && 0 <= j < events.Length1 ==> events[m, j] == old(events[m, j])
  {
    var cols := events.Length1;
    for k := 0 to |samples|
      invariant forall kk :: 0 <= kk < k ==> InRange(samples[kk], cols)
      invariant forall j :: 0 <= j < cols ==> events[n, j] == if Marked(samples[..k], cols, j) then n + 1 else 0
      invariant forall m, j :: 0 <= m < events.Length0 && m != n && 0 <= j < cols ==> events[m, j] == old(events[m, j])
    {
      var i := samples[k];
      if !InRange(i, cols) {
        return false;
      }
      forall j | 0 <= j < cols ensures Marked(samples[..k + 1], cols, j) <==> Marked(samples[..k], cols, j) || Wrap(i, cols) == j {
        MarkedStep(samples, cols, k, j);
      }
      events[n, Wrap(i, cols)] := n + 1;
    }
    assert samples[..|samples|] == samples;
    return true;
  }

  /**
   * The matrix of `_read_events`: `np.zeros` of one row per code and `cols`
   * columns, then `events[n][i] = n + 1` for every sample i of code n.
   */
  method EventsMatrix(eventsTims: map<Value, seq<int>>, codes: seq<Value>, cols: nat) returns (r: Result<array2<int>>)
    requires GroupsCover(eventsTims, codes)
    ensures r.Err? <==> !AllInRange(Rows(eventsTims, codes), cols)
    ensures r.Err? ==> r.error == IndexError
    ensures r.Ok? ==> fresh(r.value) && r.value.Length0 == |codes| && r.value.Length1 == cols
    ensures r.Ok? ==> forall n, j :: 0 <= n < |codes| && 0 <= j < cols ==>
      r.value[n, j] == if Marked(eventsTims[codes[n]], cols, j) then n + 1 else 0
  {
    var events := new int[|codes|, cols]((i, j) => 0);
    ghost var rows := Rows(eventsTims, codes);
    for n := 0 to |codes|
      invariant forall m :: 0 <= m < n ==> forall k :: 0 <= k < |rows[m]| ==> InRange(rows[m][k], cols)
      invariant forall m, j :: 0 <= m < n && 0 <= j < cols ==>
        events[m, j] == if Marked(rows[m], cols, j) then m + 1 else 0
      invariant forall m, j :: n <= m < |codes| && 0 <= j < cols ==> events[m, j] == 0
    {
      assert rows[n] == eventsTims[codes[n]];
      var ok := MarkRow(events, n, eventsTims[codes[n]]);
      if !ok {
        ghost var k :| 0 <= k < |rows[n]| && !InRange(rows[n][k], cols);
        return Err(IndexError);
      }
    }
    return Ok(events);
  }

  /**
   * `_read_events`: one row per event code, `n_segments * last_samps[-1]`
   * columns, row n holding n + 1 at the samples of code n; `info` gains
   * `n_events` and `event_codes` as soon as the events are read.
   */
  method ReadEvents(files: seq<XmlFile>, info: Header, clock: Clock) returns (r: Result<array2<int>>)
    requires DistinctNames(files)
    modifies info
    ensures info.lastSamps == old(info.lastSamps) && info.sfreq == old(info.sfreq) && info.nSegments == old(info.nSegments)
    ensures info.lastSamps == [] ==>
      r == Err(IndexError) && info.nEvents == old(info.nEvents) && info.eventCodes == old(info.eventCodes)
    ensures info.lastSamps != [] ==>
      var read := MffEventsOf(files, info.sfreq, clock);
      var cols := info.nSegments * info.lastSamps[|info.lastSamps| - 1];
      && (read.Err? ==> r == Err(read.error) && info.nEvents == old(info.nEvents) && info.eventCodes == old(info.eventCodes))
      && (read.Ok? ==> info.nEvents == Some(|read.value.1|) && info.eventCodes == Some(read.value.1))
      && (read.Ok? && cols < 0 ==> r == Err(ValueError))
      && (read.Ok? && cols >= 0 ==>
            && GroupsCover(read.value.0, read.value.1)
            && (r.Err? <==> !AllInRange(Rows(read.value.0, read.value.1), cols))
            && (r.Err? ==> r.error == IndexError)
            && (r.Ok? ==> fresh(r.value) && r.value.Length0 == |read.value.1| && r.value.Length1 == cols)
            && (r.Ok? ==> forall n, j :: 0 <= n < |read.value.1| && 0 <= j < cols ==>
                 r.value[n, j] == if Marked(read.value.0[read.value.1[n]], cols, j) then n + 1 else 0))
  {
    if info.lastSamps == [] {
      return Err(IndexError);
    }
    var nSamples := info.lastSamps[|info.lastSamps| - 1];
    var read := ReadMffEvents(files, info.sfreq, clock);
    if read.Err? {
      return Err(read.error);
    }
    var (mffEvents, eventCodes) := read.value;
    GroupsOfResult(files, info.sfreq, clock);
    info.nEvents := Some(|eventCodes|);
    info.eventCodes := Some(eventCodes);
    var cols := info.nSegments * nSamples;
    if cols < 0 {
      return Err(ValueError);
    }
    r := EventsMatrix(mffEvents, eventCodes, cols);
  }
}
