/**
 * `_xml2list` and `_xml2dict`: turning an ElementTree element into nested
 * Python lists and dicts. The element tree is a datatype; the two converters
 * are recursive methods that append to (or update) an output while walking
 * the children, each proved equal to a specification function, and the
 * lemmas state what the output holds.
 */
module Xml {
  import opened Wrappers
  import opened PyStr
  import opened Collections

  /** An ElementTree element: tag (`{uri}local` when namespaced), attributes, text, children. */
  datatype Element = Element(tag: string, attrib: map<string, string>, text: Option<string>, children: seq<Element>)

  /** The Python values the converters build: None, str, list and dict. */
  datatype Value = Null | Str(s: string) | List(items: seq<Value>) | Dict(entries: map<string, Value>)

  /** `dict(element.items())`: the attributes as a dict of strings. */
  function AttribDict(attrib: map<string, string>): map<string, Value>
  {
    map k | k in attrib :: Str(attrib[k])
  }

  /** `element.text` as a Python value: a string or None. */
  function TextValue(text: Option<string>): Value
  {
    match text
    case None => Null
    case Some(t) => Str(t)
  }

  /** True when `_xml2list` turns a leaf's text into an entry. */
  predicate HasText(e: Element)
  {
    e.text.Some? && e.text.value != "" && Strip(e.text.value) != ""
  }

  // ----- specification of _xml2list -----

  /** What `_xml2list` appends for one child, if anything. */
  function ListItem(e: Element): Option<Value>
    decreases e, 2
  {
    if |e.children| > 0 then
      if e.children[0].tag != e.children[|e.children| - 1].tag
      then Some(Dict(DictOf(e)))
      else Some(List(ListOf(e)))
    else if HasText(e) then
      Some(Dict(map[Ns(e.tag) := Str(Strip(e.text.value))]))
    else None
  }

  /** The contribution of each child, in document order. */
  function Items(parent: Element): (items: seq<Option<Value>>)
    ensures |items| == |parent.children|
    decreases parent, 0
  {
    seq(|parent.children|, i requires 0 <= i < |parent.children| => ListItem(parent.children[i]))
  }

  /** `_xml2list(parent)`: the contributions that exist, in document order. */
  function ListOf(parent: Element): seq<Value>
    decreases parent, 1
  {
    Keep(Items(parent))
  }

  // ----- specification of _xml2dict -----

  /** The value `_xml2dict` stores under a child's key. */
  function DictEntry(e: Element): Value
    decreases e, 2
  {
    if |e.children| > 0 then
      var inner :=
        if |e.children| == 1 || e.children[0].tag != e.children[1].tag
        then DictOf(e)
        else map[Ns(e.children[0].tag) := List(ListOf(e))];
      Dict(if |e.attrib| > 0 then inner + AttribDict(e.attrib) else inner)
    else if |e.attrib| > 0 then Dict(AttribDict(e.attrib))
    else TextValue(e.text)
  }

  /** The key and value each child gives, in document order. */
  function Entries(parent: Element): (ps: seq<(string, Value)>)
    ensures |ps| == |parent.children|
    decreases parent, 0
  {
    seq(|parent.children|, i requires 0 <= i < |parent.children| =>
      (Ns(parent.children[i].tag), DictEntry(parent.children[i])))
  }

  /** The dict `_xml2dict` starts from: the element's attributes. */
  function AttribStart(e: Element): map<string, Value>
  {
    if |e.attrib| > 0 then AttribDict(e.attrib) else map[]
  }

  /** `_xml2dict(parent)`: the attributes, updated with each child's entry in turn. */
  function DictOf(parent: Element): map<string, Value>
    decreases parent, 1
  {
    Update(AttribStart(parent), Entries(parent))
  }

  // ----- the converters -----

  /** `_xml2list`: one entry per child that has children or non-blank text, in document order. */
  method Xml2List(root: Element) returns (output: seq<Value>)
    ensures output == ListOf(root)
    decreases root
  {
    output := [];
    for i := 0 to |root.children|
      invariant output == Keep(Items(root)[..i])
    {
      var element := root.children[i];
      assert Items(root)[i] == ListItem(element);
      KeepPrefix(Items(root), i);
      if |element.children| > 0 {
        if element.children[0].tag != element.children[|element.children| - 1].tag {
          var d := Xml2Dict(element);
          output := output + [Dict(d)];
        } else {
          var l := Xml2List(element);
          output := output + [List(l)];
        }
      } else if element.text.Some? && element.text.value != "" {
        var text := Strip(element.text.value);
        if text != "" {
          var tag := Ns(element.tag);
          output := output + [Dict(map[tag := Str(text)])];
        }
      }
    }
    assert Items(root)[..|root.children|] == Items(root);
  }

  /** `_xml2dict`: the root's attributes, then one key per child tag, later siblings overwriting. */
  method Xml2Dict(root: Element) returns (output: map<string, Value>)
    ensures output == DictOf(root)
    decreases root
  {
    output := map[];
    if |root.attrib| > 0 {
      output := output + AttribDict(root.attrib);
    }
    assert output == AttribStart(root);
    for i := 0 to |root.children|
      invariant output == Update(AttribStart(root), Entries(root)[..i])
    {
      var element := root.children[i];
      var value: Value;
      if |element.children| > 0 {
        var oneDict: map<string, Value>;
        if |element.children| == 1 || element.children[0].tag != element.children[1].tag {
          oneDict := Xml2Dict(element);
        } else {
          var l := Xml2List(element);
          oneDict := map[Ns(element.children[0].tag) := List(l)];
        }
        if |element.attrib| > 0 {
          oneDict := oneDict + AttribDict(element.attrib);
        }
        value := Dict(oneDict);
      } else if |element.attrib| > 0 {
        value := Dict(AttribDict(element.attrib));
      } else {
        value := TextValue(element.text);
      }
      assert value == DictEntry(element);
      UpdatePrefix(AttribStart(root), Entries(root), i);
      output := output[Ns(element.tag) := value];
    }
    assert Entries(root)[..|root.children|] == Entries(root);
  }

  // ----- what _xml2list produces -----

  /**
   * How one child fares in `_xml2list`: a leaf is dropped exactly when its
   * text is absent or blank and otherwise becomes `{ns(tag): stripped text}`;
   * an element with children becomes a dict when its first and last child
   * tags differ and a nested list when they agree.
   */
  lemma ListItemCases(e: Element)
    ensures |e.children| == 0 ==>
      (ListItem(e).None? <==> e.text.None? || forall k :: 0 <= k < |e.text.value| ==> IsSpace(e.text.value[k]))
    ensures |e.children| == 0 && HasText(e) ==>
      ListItem(e) == Some(Dict(map[Ns(e.tag) := Str(Strip(e.text.value))]))
    ensures |e.children| > 0 ==> ListItem(e).Some?
    ensures |e.children| > 0 ==>
      (ListItem(e).value.Dict? <==> e.children[0].tag != e.children[|e.children| - 1].tag)
  {
    if e.text.Some? {
      StripEnds(e.text.value);
    }
  }

  /**
   * The output of `_xml2list`, entry by entry: entry j comes from child
   * Kept[j], in document order; exactly the children with children of their
   * own or with non-blank text are kept; a kept leaf gives
   * `{ns(tag): stripped text}` and a kept element with children gives a dict
   * exactly when its first and last child tags differ.
   */
  lemma Xml2ListShape(root: Element)
    ensures var output, kept := ListOf(root), KeptAt(Items(root));
      && |output| <= |root.children|
      && |kept| == |output|
      && (forall j, k :: 0 <= j < k < |kept| ==> kept[j] < kept[k])
      && (forall i :: 0 <= i < |root.children| ==>
            (i in kept <==> |root.children[i].children| > 0 || HasText(root.children[i])))
      && (forall j :: 0 <= j < |output| ==>
            && kept[j] < |root.children|
            && var c := root.children[kept[j]];
            && (|c.children| == 0 ==> HasText(c) && output[j] == Dict(map[Ns(c.tag) := Str(Strip(c.text.value))]))
            && (|c.children| > 0 ==> (output[j].Dict? <==> c.children[0].tag != c.children[|c.children| - 1].tag)))
  {
    var items := Items(root);
    KeepLayout(items);
    forall i | 0 <= i < |root.children| ensures items[i] == ListItem(root.children[i]) {
    }
    forall i | 0 <= i < |root.children| ensures ListItem(root.children[i]).Some? <==>
      |root.children[i].children| > 0 || HasText(root.children[i])
    {
      ListItemCases(root.children[i]);
    }
  }

  // ----- what _xml2dict produces -----

  /** The keys the children give: their tags without namespace. */
  ghost function ChildKeys(parent: Element): set<string>
  {
    set i | 0 <= i < |parent.children| :: Ns(parent.children[i].tag)
  }

  /** No later sibling of child i has the same tag once namespaces are removed. */
  ghost predicate LastOfItsKey(parent: Element, i: nat)
    requires i < |parent.children|
  {
    forall j :: i < j < |parent.children| ==> Ns(parent.children[j].tag) != Ns(parent.children[i].tag)
  }

  /** The keys the children give are the keys of the entries. */
  lemma EntryKeys(root: Element)
    ensures KeysOf(Entries(root)) == ChildKeys(root)
  {
    var ps := Entries(root);
    KeysOfAt(ps);
    assert forall i :: 0 <= i < |ps| ==> ps[i].0 == Ns(root.children[i].tag);
  }

  /**
   * The output of `_xml2dict`: its keys are the root's attribute names and the
   * children's tags without namespace; a child's key holds the entry of the
   * LAST child with that key; a root attribute survives unless a child's key
   * equals it.
   */
  lemma Xml2DictShape(root: Element)
    ensures DictOf(root).Keys == root.attrib.Keys + ChildKeys(root)
    ensures forall i :: 0 <= i < |root.children| && LastOfItsKey(root, i) ==>
      var key := Ns(root.children[i].tag);
      key in DictOf(root) && DictOf(root)[key] == DictEntry(root.children[i])
    ensures forall k :: k in root.attrib && k !in ChildKeys(root) ==>
      k in DictOf(root) && DictOf(root)[k] == Str(root.attrib[k])
  {
    var ps := Entries(root);
    var start := AttribStart(root);
    assert start.Keys == root.attrib.Keys;
    UpdateKeys(start, ps);
    UpdateLastWins(start, ps);
    EntryKeys(root);
    forall i | 0 <= i < |root.children| && LastOfItsKey(root, i)
      ensures var key := Ns(root.children[i].tag);
        key in DictOf(root) && DictOf(root)[key] == DictEntry(root.children[i])
    {
      LastEntry(root, i);
    }
  }

  /** The entry of a child no later sibling shares a key with is the last pair with that key. */
  lemma LastEntry(root: Element, i: nat)
    requires i < |root.children| && LastOfItsKey(root, i)
    ensures LastWithKey(Entries(root), i)
    ensures Entries(root)[i] == (Ns(root.children[i].tag), DictEntry(root.children[i]))
  {
  }

  /**
   * The value `_xml2dict` stores for a child: a leaf without attributes gives
   * its raw (unstripped) text or None, a leaf with attributes its attribute
   * dict, and an element with children a dict in which its own attributes
   * override the nested entries of the same name.
   */
  lemma DictEntryCases(e: Element)
    ensures |e.children| == 0 && |e.attrib| == 0 ==> DictEntry(e) == TextValue(e.text)
    ensures |e.children| == 0 && |e.attrib| > 0 ==> DictEntry(e) == Dict(AttribDict(e.attrib))
    ensures |e.children| > 0 ==> DictEntry(e).Dict?
    ensures |e.children| > 0 ==> forall k :: k in e.attrib ==>
      k in DictEntry(e).entries && DictEntry(e).entries[k] == Str(e.attrib[k])
    ensures |e.children| > 1 && e.children[0].tag == e.children[1].tag ==>
      DictEntry(e).entries.Keys == {Ns(e.children[0].tag)} + e.attrib.Keys
  {
  }
}
