/**
 * `parse_ECI_events_from_xml`: the events that EGI's Experiment Control
 * Interface writes to `Events_ECI*.xml`, each `event` element turned into a
 * dict of converted fields, with the `keys` field turned into a dict from key
 * code to typed data.
 *
 * The parsed root element is the input; the `strptime` of `beginTime` is a
 * parameter (`StampClock`) that maps the edited timestamp text to a time, or
 * to nothing where `strptime` raises ValueError.
 */
module Eci {
  import opened Wrappers
  import opened PyStr
  import opened Collections
  import opened Xml

  /** `datetime.strptime(text, "%Y-%m-%dT%H:%M:%S.%f%z")`: a time, or None where it raises ValueError. */
  type StampClock = string -> Option<int>

  /** The tag `ns:local` stands for with `ns = {"ns": "http://www.egi.com/event_mff"}`. */
  function Qualified(local: string): string
  {
    "{http://www.egi.com/event_mff}" + local
  }

  /** A converted `data` value of a key: `np.int16`, `np.int64` or `str`. */
  datatype KeyData = ShortKey(n: int) | LongKey(n: int) | StrKey(s: string)

  /** A converted event field. */
  datatype Field =
    | TimeField(stamp: int)
    | IntField(n: int)
    | BoolField(b: bool)
    | StrField(s: string)
    | KeysField(keys: map<Option<string>, KeyData>)

  // ----- ElementTree lookups -----

  /** `e.findall(tag)`: the children with exactly this tag, in document order. */
  function FindAll(e: Element, tag: string): (r: seq<Element>)
    ensures |r| <= |e.children|
  {
    Keep(Matches(e.children, tag))
  }

  /** Each child if it has the tag, else nothing. */
  function Matches(cs: seq<Element>, tag: string): (ms: seq<Option<Element>>)
    ensures |ms| == |cs|
  {
    seq(|cs|, i requires 0 <= i < |cs| => if cs[i].tag == tag then Some(cs[i]) else None)
  }

  /** `e.find(tag)`: the first child with exactly this tag, if any. */
  function Find(e: Element, tag: string): (r: Option<Element>)
    ensures r.Some? ==> exists i ::
      && 0 <= i < |e.children|
      && e.children[i] == r.value
      && r.value.tag == tag
      && forall m :: 0 <= m < i ==> e.children[m].tag != tag
    ensures r.None? ==> forall i :: 0 <= i < |e.children| ==> e.children[i].tag != tag
  {
    var i := FirstWithTag(e.children, tag);
    if i < |e.children| then Some(e.children[i]) else None
  }

  /** The position of the first element with the tag, or the length when there is none. */
  function FirstWithTag(cs: seq<Element>, tag: string): (i: nat)
    ensures i <= |cs|
    ensures i < |cs| ==> cs[i].tag == tag
    ensures forall m :: 0 <= m < i ==> cs[m].tag != tag
  {
    if cs == [] then 0
    else if cs[0].tag == tag then 0
    else 1 + FirstWithTag(cs[1..], tag)
  }

  /** `str(text)` for an element's text: the text itself, or "None". */
  function PyStrOf(text: Option<string>): string
  {
    match text
    case None => "None"
    case Some(t) => t
  }

  /** `int(text)` for an element's text: None raises TypeError. */
  function IntOf(text: Option<string>): (r: Result<int>)
    ensures text.None? ==> r == Err(TypeError)
    ensures text.Some? ==> r == ParseInt(text.value)
    ensures r == Err(TypeError) <==> text.None?
    ensures r.Err? ==> r.error == TypeError || r.error == ValueError
  {
    match text
    case None => Err(TypeError)
    case Some(t) => ParseInt(t)
  }

  // ----- parse_key -----

  /** `parse_key_type[data_type](text)`: the converter named by the `dataType` attribute. */
  function ConvertKeyData(dataType: Option<string>, text: Option<string>): Result<KeyData>
  {
    if dataType == Some("short") then
      (match IntOf(text) case Err(e) => Err(e) case Ok(n) => Ok(ShortKey(n)))
    else if dataType == Some("long") then
      (match IntOf(text) case Err(e) => Err(e) case Ok(n) => Ok(LongKey(n)))
    else if dataType == Some("string") || dataType == Some("TEXT") then
      Ok(StrKey(PyStrOf(text)))
    else Err(KeyError)
  }

  /** `parse_key(key)`: the text of its `keyCode` child and the converted text of its `data` child. */
  function ParseKey(key: Element): Result<(Option<string>, KeyData)>
  {
    match Find(key, Qualified("keyCode"))
    case None => Err(AttributeError)
    case Some(codeElement) =>
      match Find(key, Qualified("data"))
      case None => Err(AttributeError)
      case Some(data) =>
        var dataType := if "dataType" in data.attrib then Some(data.attrib["dataType"]) else None;
        match ConvertKeyData(dataType, data.text)
        case Err(e) => Err(e)
        case Ok(v) => Ok((codeElement.text, v))
  }

  /** The `key` children of a `keys` element, each parsed. */
  function KeyResults(e: Element): (rs: seq<Result<(Option<string>, KeyData)>>)
    ensures |rs| == |FindAll(e, Qualified("key"))|
  {
    var keys := FindAll(e, Qualified("key"));
    seq(|keys|, i requires 0 <= i < |keys| => ParseKey(keys[i]))
  }

  /** `dict([parse_key(key) for key in e.findall("ns:key", ns)])`. */
  function KeysOfElement(e: Element): Result<map<Option<string>, KeyData>>
  {
    match Collect(KeyResults(e))
    case Err(err) => Err(err)
    case Ok(pairs) => Ok(Update(map[], pairs))
  }

  // ----- parse_element -----

  /** The converters of `parse_element`, one per kind of field. */
  datatype Converter = BeginTime | Integer | Flag | Text | KeyDict

  /**
   * `parse_element[tag]`: the converter for a tag, or None where the lookup
   * raises KeyError. The note written just before `"beginTime"` has no comma
   * after it, and Python joins adjacent string literals, so the dict has no
   * key "beginTime": its first key is the note's text followed by
   * "beginTime". That key holds spaces and line breaks, which no XML tag name
   * can, so no `_ns(tag)` ever reaches it and the begin-time converter is
   * never used.
   */
  function ConverterOf(tag: string): (r: Option<Converter>)
    ensures r.Some? <==> KnownField(tag)
    ensures r != Some(BeginTime)
  {
    if tag == "duration" || tag == "relativeBeginTime" then Some(Integer)
    else if tag == "segmentationEvent" then Some(Flag)
    else if tag == "code" || tag == "label" || tag == "description" || tag == "sourceDevice" then Some(Text)
    else if tag == "keys" then Some(KeyDict)
    else None
  }

  /** The keys of the `parse_element` dict that a tag can match. */
  predicate KnownField(tag: string)
  {
    tag in {"duration", "relativeBeginTime", "segmentationEvent", "code", "label", "description", "sourceDevice", "keys"}
  }

  /** The converter for a tag once the dict's first key is the plain "beginTime". */
  function IntendedConverterOf(tag: string): (r: Option<Converter>)
    ensures r.Some? <==> IntendedField(tag)
    ensures r == Some(BeginTime) <==> tag == "beginTime"
  {
    if tag == "beginTime" then Some(BeginTime) else ConverterOf(tag)
  }

  /** The nine field names `parse_element` is evidently meant to have. */
  predicate IntendedField(tag: string)
  {
    tag == "beginTime" || KnownField(tag)
  }

  /** One converter applied to an element. */
  function Convert(c: Converter, e: Element, clock: StampClock): Result<Field>
  {
    match c
    case BeginTime =>
      (match e.text
       case None => Err(TypeError)
       case Some(t) =>
         match clock(DropLastColon(t))
         case None => Err(ValueError)
         case Some(stamp) => Ok(TimeField(stamp)))
    case Integer => (match IntOf(e.text) case Err(err) => Err(err) case Ok(n) => Ok(IntField(n)))
    case Flag => Ok(BoolField(e.text == Some("true")))
    case Text => Ok(StrField(PyStrOf(e.text)))
    case KeyDict => (match KeysOfElement(e) case Err(err) => Err(err) case Ok(keys) => Ok(KeysField(keys)))
  }

  /** `parse_element[tag](e)`: the converted field, or the exception the lookup or converter raises. */
  function ParseElement(tag: string, e: Element, clock: StampClock): Result<Field>
  {
    match ConverterOf(tag)
    case None => Err(KeyError)
    case Some(c) => Convert(c, e, clock)
  }

  /** `parse_element[tag](e)` with the intended "beginTime" key. */
  function IntendedParseElement(tag: string, e: Element, clock: StampClock): Result<Field>
  {
    match IntendedConverterOf(tag)
    case None => Err(KeyError)
    case Some(c) => Convert(c, e, clock)
  }

  /** One entry of the event's dict comprehension: `_ns(x.tag)` and its converted element. */
  function FieldEntry(child: Element, clock: StampClock): Result<(string, Field)>
  {
    var tag := Ns(child.tag);
    match ParseElement(tag, child, clock)
    case Err(e) => Err(e)
    case Ok(v) => Ok((tag, v))
  }

  function FieldResults(event: Element, clock: StampClock): (rs: seq<Result<(string, Field)>>)
    ensures |rs| == |event.children|
  {
    seq(|event.children|, i requires 0 <= i < |event.children| => FieldEntry(event.children[i], clock))
  }

  /** The dict one `event` element becomes. */
  function ParseEvent(event: Element, clock: StampClock): Result<map<string, Field>>
  {
    match Collect(FieldResults(event, clock))
    case Err(e) => Err(e)
    case Ok(pairs) => Ok(Update(map[], pairs))
  }

  function EventResults(root: Element, clock: StampClock): (rs: seq<Result<map<string, Field>>>)
    ensures |rs| == |FindAll(root, Qualified("event"))|
  {
    var events := FindAll(root, Qualified("event"));
    seq(|events|, i requires 0 <= i < |events| => ParseEvent(events[i], clock))
  }

  /** `parse_ECI_events_from_xml`: one dict per `event` child of the root, in document order. */
  function ParseEciEvents(root: Element, clock: StampClock): Result<seq<map<string, Field>>>
  {
    Collect(EventResults(root, clock))
  }

  // ----- properties -----

  /**
   * A `beginTime` child finds no converter: `parse_element` has no key
   * "beginTime", so the lookup raises KeyError whatever the element holds.
   */
  lemma BeginTimeKeyError(e: Element, clock: StampClock)
    ensures ParseElement("beginTime", e, clock) == Err(KeyError)
  {
  }

  /**
   * So an event with a `beginTime` child never converts, and when every child
   * before the first such one converts, the exception is that KeyError.
   */
  lemma BeginTimeEventFails(event: Element, clock: StampClock, i: nat)
    requires i < |event.children| && Ns(event.children[i].tag) == "beginTime"
    ensures ParseEvent(event, clock).Err?
    ensures (forall m :: 0 <= m < i ==> ParseElement(Ns(event.children[m].tag), event.children[m], clock).Ok?) ==>
      ParseEvent(event, clock) == Err(KeyError)
  {
    var rs := FieldResults(event, clock);
    assert rs[i] == FieldEntry(event.children[i], clock);
    BeginTimeKeyError(event.children[i], clock);
    CollectCases(rs);
    if forall m :: 0 <= m < i ==> ParseElement(Ns(event.children[m].tag), event.children[m], clock).Ok? {
      forall m | 0 <= m < i ensures rs[m].Ok? {
        assert rs[m] == FieldEntry(event.children[m], clock);
      }
      var j :| 0 <= j < |rs| && rs[j].Err? && Collect(rs).error == rs[j].error && forall m :: 0 <= m < j ==> rs[m].Ok?;
      assert j == i;
    }
  }

  /** The whole file fails as soon as one of its events has a `beginTime` child. */
  lemma BeginTimeFileFails(root: Element, clock: StampClock, k: nat, i: nat)
    requires k < |FindAll(root, Qualified("event"))|
    requires i < |FindAll(root, Qualified("event"))[k].children|
    requires Ns(FindAll(root, Qualified("event"))[k].children[i].tag) == "beginTime"
    ensures ParseEciEvents(root, clock).Err?
  {
    BeginTimeEventFails(FindAll(root, Qualified("event"))[k], clock, i);
    EciEvents(root, clock);
  }

  /**
   * With the intended key, `beginTime` parses its text without the last ':'
   * (the one in the "+HH:MM" offset); a missing text raises TypeError and an
   * unparsable one ValueError.
   */
  lemma IntendedBeginTimeText(e: Element, clock: StampClock)
    ensures e.text.None? ==> IntendedParseElement("beginTime", e, clock) == Err(TypeError)
    ensures e.text.Some? && ':' in e.text.value ==>
      var t := e.text.value;
      var edited := t[..LastIndex(t, ':')] + t[LastIndex(t, ':') + 1..];
      IntendedParseElement("beginTime", e, clock) ==
        if clock(edited).Some? then Ok(TimeField(clock(edited).value)) else Err(ValueError)
    ensures e.text.Some? && ':' !in e.text.value ==>
      IntendedParseElement("beginTime", e, clock) ==
        if clock(e.text.value).Some? then Ok(TimeField(clock(e.text.value).value)) else Err(ValueError)
  {
  }

  /** The intended dict differs from the one written only in the begin-time key. */
  lemma IntendedAgrees(tag: string, e: Element, clock: StampClock)
    ensures tag != "beginTime" ==> IntendedParseElement(tag, e, clock) == ParseElement(tag, e, clock)
    ensures IntendedParseElement("beginTime", e, clock) == Convert(BeginTime, e, clock)
    ensures ParseElement("beginTime", e, clock) == Err(KeyError)
  {
  }

  /** `segmentationEvent` is true exactly when its text is "true". */
  lemma SegmentationFlag(e: Element, clock: StampClock)
    ensures ParseElement("segmentationEvent", e, clock).Ok?
    ensures ParseElement("segmentationEvent", e, clock).value.BoolField?
    ensures ParseElement("segmentationEvent", e, clock).value.b <==> e.text == Some("true")
  {
  }

  /** A tag `parse_element` has no converter for raises KeyError; the other fields other than `keys` never do. */
  lemma UnknownTag(tag: string, e: Element, clock: StampClock)
    ensures !KnownField(tag) ==> ParseElement(tag, e, clock) == Err(KeyError)
    ensures KnownField(tag) && tag != "keys" ==> ParseElement(tag, e, clock) != Err(KeyError)
  {
    assert KnownField(tag) <==> ConverterOf(tag).Some?;
  }

  /** `int(e.text)` reads back what `str(n)` writes, for `duration` and `relativeBeginTime`. */
  lemma IntFieldRoundTrip(tag: string, e: Element, n: int, clock: StampClock)
    requires tag == "duration" || tag == "relativeBeginTime"
    requires e.text == Some(FormatInt(n))
    ensures ParseElement(tag, e, clock) == Ok(IntField(n))
  {
    ParseFormat(n);
  }

  /** The text fields are `str(e.text)`: the text itself, or "None" when there is none. */
  lemma StrFieldText(tag: string, e: Element, clock: StampClock)
    requires tag in {"code", "label", "description", "sourceDevice"}
    ensures e.text.Some? ==> ParseElement(tag, e, clock) == Ok(StrField(e.text.value))
    ensures e.text.None? ==> ParseElement(tag, e, clock) == Ok(StrField("None"))
  {
  }

  /** `findall` selects exactly the children with the tag. */
  lemma FindAllMembers(e: Element, tag: string)
    ensures forall j :: 0 <= j < |FindAll(e, tag)| ==> FindAll(e, tag)[j] in e.children && FindAll(e, tag)[j].tag == tag
    ensures forall i :: 0 <= i < |e.children| && e.children[i].tag == tag ==> e.children[i] in FindAll(e, tag)
  {
    var s := Matches(e.children, tag);
    KeepLayout(s);
    var at := KeptAt(s);
    forall i | 0 <= i < |e.children| && e.children[i].tag == tag ensures e.children[i] in FindAll(e, tag) {
      assert s[i].Some?;
      var j :| 0 <= j < |at| && at[j] == i;
      assert FindAll(e, tag)[j] == e.children[i];
    }
  }

  /** `findall` keeps document order: entry j is child `at[j]`, and the positions increase. */
  lemma FindAllOrder(e: Element, tag: string)
    ensures var at := KeptAt(Matches(e.children, tag));
      && |at| == |FindAll(e, tag)|
      && (forall j :: 0 <= j < |at| ==> at[j] < |e.children| && FindAll(e, tag)[j] == e.children[at[j]])
      && (forall j, k :: 0 <= j < k < |at| ==> at[j] < at[k])
  {
    KeepLayout(Matches(e.children, tag));
  }

  /**
   * `parse_key`: a key without a `keyCode` or without a `data` child raises
   * AttributeError, a `dataType` other than short, long, string and TEXT
   * raises KeyError, and otherwise the pair is the code's text and the data
   * converted by its type.
   */
  lemma ParseKeyCases(key: Element)
    ensures Find(key, Qualified("keyCode")).None? ==> ParseKey(key) == Err(AttributeError)
    ensures Find(key, Qualified("keyCode")).Some? && Find(key, Qualified("data")).None? ==>
      ParseKey(key) == Err(AttributeError)
    ensures Find(key, Qualified("keyCode")).Some? && Find(key, Qualified("data")).Some? ==>
      var data := Find(key, Qualified("data")).value;
      var dataType := if "dataType" in data.attrib then Some(data.attrib["dataType"]) else None;
      && (dataType !in {Some("short"), Some("long"), Some("string"), Some("TEXT")} <==> ParseKey(key) == Err(KeyError))
      && (ParseKey(key).Ok? ==>
            ParseKey(key).value == (Find(key, Qualified("keyCode")).value.text, ConvertKeyData(dataType, data.text).value))
  {
  }

  /** Integer key data reads back what `str(n)` writes; string data is kept as it is. */
  lemma KeyDataRoundTrip(n: int, t: string)
    ensures ConvertKeyData(Some("short"), Some(FormatInt(n))) == Ok(ShortKey(n))
    ensures ConvertKeyData(Some("long"), Some(FormatInt(n))) == Ok(LongKey(n))
    ensures ConvertKeyData(Some("string"), Some(t)) == Ok(StrKey(t))
    ensures ConvertKeyData(Some("TEXT"), Some(t)) == Ok(StrKey(t))
  {
    ParseFormat(n);
  }

  /**
   * The `keys` dict: it exists exactly when every `key` child parses; its
   * keys are the key codes, and a code holds the data of the LAST key with
   * that code.
   */
  lemma KeysDict(e: Element)
    ensures var keys := FindAll(e, Qualified("key"));
      KeysOfElement(e).Ok? <==> forall j :: 0 <= j < |keys| ==> ParseKey(keys[j]).Ok?
    ensures var keys := FindAll(e, Qualified("key"));
      KeysOfElement(e).Ok? ==>
        KeysOfElement(e).value.Keys == set j | 0 <= j < |keys| && ParseKey(keys[j]).Ok? :: ParseKey(keys[j]).value.0
    ensures var keys := FindAll(e, Qualified("key"));
      KeysOfElement(e).Ok? ==> forall j :: 0 <= j < |keys| && LastKeyWithCode(keys, j) ==>
        ParseKey(keys[j]).value.0 in KeysOfElement(e).value &&
        KeysOfElement(e).value[ParseKey(keys[j]).value.0] == ParseKey(keys[j]).value.1
  {
    var keys := FindAll(e, Qualified("key"));
    var rs := KeyResults(e);
    assert forall j :: 0 <= j < |keys| ==> ParseKey(keys[j]) == rs[j];
    CollectCases(rs);
    if Collect(rs).Ok? {
      CollectedDict(rs);
    }
  }

  /** Key j parses and no later key that parses has its code. */
  predicate LastKeyWithCode(keys: seq<Element>, j: nat)
    requires j < |keys|
  {
    && ParseKey(keys[j]).Ok?
    && forall m :: j < m < |keys| && ParseKey(keys[m]).Ok? ==> ParseKey(keys[m]).value.0 != ParseKey(keys[j]).value.0
  }

  /** When a key fails, the `keys` field fails with the exception of the first key that fails. */
  lemma KeysError(e: Element)
    requires KeysOfElement(e).Err?
    ensures var keys := FindAll(e, Qualified("key"));
      exists j :: 0 <= j < |keys| && ParseKey(keys[j]) == Err(KeysOfElement(e).error) &&
        forall m :: 0 <= m < j ==> ParseKey(keys[m]).Ok?
  {
    var keys := FindAll(e, Qualified("key"));
    var rs := KeyResults(e);
    CollectCases(rs);
    var j :| 0 <= j < |rs| && rs[j].Err? && Collect(rs).error == rs[j].error && forall m :: 0 <= m < j ==> rs[m].Ok?;
    assert forall m :: 0 <= m <= j ==> ParseKey(keys[m]) == rs[m];
  }

  /** The pairs the children of an event give, related to `parse_element` child by child. */
  lemma FieldResultsAt(event: Element, clock: StampClock)
    ensures forall i :: 0 <= i < |event.children| ==>
      (FieldResults(event, clock)[i].Ok? <==> ParseElement(Ns(event.children[i].tag), event.children[i], clock).Ok?)
    ensures forall i :: 0 <= i < |event.children| && FieldResults(event, clock)[i].Ok? ==>
      FieldResults(event, clock)[i].value ==
        (Ns(event.children[i].tag), ParseElement(Ns(event.children[i].tag), event.children[i], clock).value)
  {
    var rs := FieldResults(event, clock);
    forall i | 0 <= i < |rs|
      ensures rs[i] == FieldEntry(event.children[i], clock)
    {
    }
  }

  /** One event's dict exists exactly when every child converts. */
  lemma EventDict(event: Element, clock: StampClock)
    ensures ParseEvent(event, clock).Ok? <==>
      forall i :: 0 <= i < |event.children| ==> ParseElement(Ns(event.children[i].tag), event.children[i], clock).Ok?
  {
    FieldResultsAt(event, clock);
    CollectCases(FieldResults(event, clock));
  }

  /** The keys of a converted event are its children's tags without namespace. */
  lemma EventKeys(event: Element, clock: StampClock)
    requires ParseEvent(event, clock).Ok?
    ensures ParseEvent(event, clock).value.Keys == ChildKeys(event)
  {
    var rs := FieldResults(event, clock);
    var ks := seq(|event.children|, i requires 0 <= i < |event.children| => Ns(event.children[i].tag));
    CollectCases(rs);
    forall i | 0 <= i < |rs| ensures rs[i].Ok? && rs[i].value.0 == ks[i] {
      assert rs[i] == FieldEntry(event.children[i], clock);
    }
    CollectedKeys(rs, ks);
    forall k | k in ChildKeys(event) ensures k in set i | 0 <= i < |ks| :: ks[i] {
      var i :| 0 <= i < |event.children| && Ns(event.children[i].tag) == k;
      assert ks[i] == k;
    }
  }

  /** In a converted event, a tag holds the value of the LAST child with that tag. */
  lemma EventLastWins(event: Element, clock: StampClock)
    requires ParseEvent(event, clock).Ok?
    ensures forall i :: 0 <= i < |event.children| && LastOfItsKey(event, i) ==>
      var tag := Ns(event.children[i].tag);
      tag in ParseEvent(event, clock).value && ParseElement(tag, event.children[i], clock).Ok? &&
      ParseEvent(event, clock).value[tag] == ParseElement(tag, event.children[i], clock).value
  {
    var rs := FieldResults(event, clock);
    FieldResultsAt(event, clock);
    CollectCases(rs);
    CollectedDict(rs);
  }

  /** A converted event only has fields `parse_element` knows. */
  lemma EventFieldsKnown(event: Element, clock: StampClock)
    requires ParseEvent(event, clock).Ok?
    ensures forall k :: k in ChildKeys(event) ==> KnownField(k)
  {
    var rs := FieldResults(event, clock);
    CollectCases(rs);
    forall k | k in ChildKeys(event) ensures KnownField(k) {
      var i :| 0 <= i < |event.children| && Ns(event.children[i].tag) == k;
      assert rs[i] == FieldEntry(event.children[i], clock);
      UnknownTag(k, event.children[i], clock);
    }
  }

  /** When a child fails, the event fails with the exception of the first child that fails. */
  lemma EventError(event: Element, clock: StampClock)
    requires ParseEvent(event, clock).Err?
    ensures exists i ::
      && 0 <= i < |event.children|
      && ParseElement(Ns(event.children[i].tag), event.children[i], clock) == Err(ParseEvent(event, clock).error)
      && forall m :: 0 <= m < i ==> ParseElement(Ns(event.children[m].tag), event.children[m], clock).Ok?
  {
    var rs := FieldResults(event, clock);
    CollectCases(rs);
    var i :| 0 <= i < |rs| && rs[i].Err? && Collect(rs).error == rs[i].error && forall m :: 0 <= m < i ==> rs[m].Ok?;
    assert rs[i] == FieldEntry(event.children[i], clock);
    forall m | 0 <= m < i ensures ParseElement(Ns(event.children[m].tag), event.children[m], clock).Ok? {
      assert rs[m] == FieldEntry(event.children[m], clock);
    }
  }

  /** The result lists one dict per `event` child, in order, when every event converts; else the first failure. */
  lemma EciEvents(root: Element, clock: StampClock)
    ensures var events := FindAll(root, Qualified("event"));
      ParseEciEvents(root, clock).Ok? <==> forall i :: 0 <= i < |events| ==> ParseEvent(events[i], clock).Ok?
    ensures var events := FindAll(root, Qualified("event"));
      ParseEciEvents(root, clock).Ok? ==>
        |ParseEciEvents(root, clock).value| == |events| &&
        forall i :: 0 <= i < |events| ==> ParseEciEvents(root, clock).value[i] == ParseEvent(events[i], clock).value
    ensures var events := FindAll(root, Qualified("event"));
      ParseEciEvents(root, clock).Err? ==>
        exists i :: 0 <= i < |events| && ParseEvent(events[i], clock) == Err(ParseEciEvents(root, clock).error) &&
          forall m :: 0 <= m < i ==> ParseEvent(events[m], clock).Ok?
  {
    var events := FindAll(root, Qualified("event"));
    var rs := EventResults(root, clock);
    CollectCases(rs);
    assert forall i :: 0 <= i < |events| ==> rs[i] == ParseEvent(events[i], clock);
    if Collect(rs).Err? {
      var i :| 0 <= i < |rs| && rs[i].Err? && Collect(rs).error == rs[i].error && forall m :: 0 <= m < i ==> rs[m].Ok?;
    }
  }
}
