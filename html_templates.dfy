/** The small HTML serialiser of the task monitor
    (flask_production/plugins/html_templates.py): `_TAG` renders a tag with
    its attributes in dictionary order and the class attribute last; `TD`
    and `TABLE` write into the attribute dictionary they are given. */
module HtmlTemplates {
  import opened Wrappers
  import opened Text

  /** The css argument: a list (or tuple) of class names, or a single value
      that is wrapped into a one-element list. */
  datatype Css = CssList(names: seq<string>) | CssScalar(name: string)

  function CssNames(css: Css): (r: seq<string>)
    ensures css.CssScalar? ==> r == [css.name]
  {
    match css
    case CssList(names) => names
    case CssScalar(name) => [name]
  }

  /** Ordered attributes, the insertion order of a Python dict. */
  type Attrs = seq<(string, string)>

  function Keys(attrs: Attrs): (r: seq<string>)
    ensures |r| == |attrs| && forall i :: 0 <= i < |attrs| ==> r[i] == attrs[i].0
  {
    if attrs == [] then [] else [attrs[0].0] + Keys(attrs[1..])
  }

  predicate UniqueKeys(attrs: Attrs)
  {
    forall i, j :: 0 <= i < j < |attrs| ==> attrs[i].0 != attrs[j].0
  }

  /** `attrs[key]`, if present. */
  function Lookup(attrs: Attrs, key: string): Option<string>
  {
    if attrs == [] then None
    else if attrs[0].0 == key then Some(attrs[0].1)
    else Lookup(attrs[1..], key)
  }

  /** `attrs[key] = value`: replaces the value in place when the key is
      there, appends the pair otherwise. */
  function SetAttr(attrs: Attrs, key: string, value: string): Attrs
  {
    if attrs == [] then [(key, value)]
    else if attrs[0].0 == key then [(key, value)] + attrs[1..]
    else [attrs[0]] + SetAttr(attrs[1..], key, value)
  }

  /** Dictionary assignment: the key then maps to the value, every other key
      keeps its value, keys stay unique, and the order of keys is unchanged
      except that a new key goes last. */
  lemma SetAttrSpec(attrs: Attrs, key: string, value: string, other: string)
    requires UniqueKeys(attrs) && other != key
    ensures Lookup(SetAttr(attrs, key, value), key) == Some(value)
    ensures Lookup(SetAttr(attrs, key, value), other) == Lookup(attrs, other)
    ensures UniqueKeys(SetAttr(attrs, key, value))
    ensures Keys(SetAttr(attrs, key, value)) == if key in Keys(attrs) then Keys(attrs) else Keys(attrs) + [key]
  {
    SetAttrLookup(attrs, key, value, other);
    SetAttrKeys(attrs, key, value);
    UniqueByKeys(attrs, SetAttr(attrs, key, value), key);
  }

  lemma {:induction false} SetAttrLookup(attrs: Attrs, key: string, value: string, other: string)
    requires other != key
    ensures Lookup(SetAttr(attrs, key, value), key) == Some(value)
    ensures Lookup(SetAttr(attrs, key, value), other) == Lookup(attrs, other)
  {
    if attrs != [] && attrs[0].0 != key {
      SetAttrLookup(attrs[1..], key, value, other);
    }
  }

  lemma {:induction false} SetAttrKeys(attrs: Attrs, key: string, value: string)
    ensures Keys(SetAttr(attrs, key, value)) == if key in Keys(attrs) then Keys(attrs) else Keys(attrs) + [key]
  {
    if attrs != [] {
      var k0, tail := attrs[0].0, Keys(attrs[1..]);
      assert Keys(attrs) == [k0] + tail;
      if k0 != key {
        SetAttrKeys(attrs[1..], key, value);
        assert key in Keys(attrs) <==> key in tail;
        if key !in tail {
          assert [k0] + (tail + [key]) == [k0] + tail + [key];
        }
      }
    }
  }

  /** Keys that stay those of a unique list, or gain one new key at the end,
      stay unique. */
  lemma UniqueByKeys(attrs: Attrs, r: Attrs, key: string)
    requires UniqueKeys(attrs)
    requires Keys(r) == if key in Keys(attrs) then Keys(attrs) else Keys(attrs) + [key]
    ensures UniqueKeys(r)
  {
    forall i, j | 0 <= i < j < |r|
      ensures r[i].0 != r[j].0
    {
      assert r[i].0 == Keys(r)[i] && r[j].0 == Keys(r)[j];
      if j < |attrs| {
        assert Keys(attrs)[i] == attrs[i].0 && Keys(attrs)[j] == attrs[j].0;
      } else {
        assert Keys(attrs)[i] == attrs[i].0;
      }
    }
  }

  lemma {:induction false} LookupAbsent(attrs: Attrs, key: string)
    requires key !in Keys(attrs)
    ensures Lookup(attrs, key) == None
  {
    if attrs != [] {
      assert Keys(attrs) == [attrs[0].0] + Keys(attrs[1..]);
      LookupAbsent(attrs[1..], key);
    }
  }

  /** `k='v'` */
  function AttrText(kv: (string, string)): string
  {
    kv.0 + "='" + kv.1 + "'"
  }

  function AttrTexts(attrs: Attrs): (r: seq<string>)
    ensures |r| == |attrs| && forall i :: 0 <= i < |attrs| ==> r[i] == AttrText(attrs[i])
  {
    if attrs == [] then [] else [AttrText(attrs[0])] + AttrTexts(attrs[1..])
  }

  /** `class='a b'` */
  function ClassAttr(css: Css): string
  {
    "class='" + Join(" ", CssNames(css)) + "'"
  }

  /** _TAG(tag, content, css, attrs): the tag opens with its name, lists
      the attributes `k='v'` in dictionary order separated by spaces, puts
      the class attribute last, then the content and the closing tag. */
  function Tag(tag: string, content: string, css: Css, attrs: Attrs): (r: string)
    ensures r == "<" + tag + " " + (if attrs == [] then "" else Join(" ", AttrTexts(attrs)) + " ")
                 + ClassAttr(css) + ">" + content + "</" + tag + ">"
  {
    JoinAppend(" ", AttrTexts(attrs), ClassAttr(css));
    "<" + tag + " " + Join(" ", AttrTexts(attrs) + [ClassAttr(css)]) + ">" + content + "</" + tag + ">"
  }

  /** Joining one more part adds a separator and the part at the end. */
  lemma {:induction false} JoinAppend(sep: string, parts: seq<string>, last: string)
    ensures Join(sep, parts + [last]) == if parts == [] then last else Join(sep, parts) + sep + last
    decreases |parts|
  {
    if |parts| == 1 {
      assert parts + [last] == [parts[0], last];
      assert [parts[0], last][1..] == [last];
    } else if |parts| > 1 {
      assert (parts + [last])[1..] == parts[1..] + [last];
      JoinAppend(sep, parts[1..], last);
    }
  }

  /** H(index, content, css, attrs): the tag "h" + index. */
  function H(index: int, content: string, css: Css, attrs: Attrs): string
  {
    Tag("h" + IntToString(index), content, css, attrs)
  }

  function Div(content: string, css: Css, attrs: Attrs): string
  {
    Tag("div", content, css, attrs)
  }

  /** TH(h, default_sort): a header cell, sortable by default iff asked. */
  function Th(h: string, defaultSort: bool): (r: string)
    ensures defaultSort ==> r == "<th data-sort-default>" + h + "</th>"
    ensures !defaultSort ==> r == "<th >" + h + "</th>"
  {
    "<th " + (if defaultSort then "data-sort-default" else "") + ">" + h + "</th>"
  }

  function Tr(row: seq<string>, css: Css, attrs: Attrs): string
  {
    Tag("tr", Join("", row), css, attrs)
  }

  /** SCRIPT(s) */
  function Script(s: string): string
  {
    "<script>" + s + "</script>"
  }

  /** CODE(s, css): a pre-formatted code block with the css classes. */
  function Code(s: string, css: Css): string
  {
    "<pre><code class='" + Join(" ", CssNames(css)) + "'>" + s + "</code></pre>"
  }

  /** A Python dict passed as `attrs` (or a function's shared default dict),
      which TD and TABLE write into. */
  class AttrDict {
    var entries: Attrs

    constructor (entries: Attrs)
      ensures this.entries == entries
    {
      this.entries := entries;
    }

    method Set(key: string, value: string)
      modifies this
      ensures entries == SetAttr(old(entries), key, value)
    {
      entries := SetAttr(entries, key, value);
    }
  }

  /** TD(content, colspan, rowspan, css, attrs): sets colspan and rowspan
      in the given dictionary, then renders it; no content renders "-". */
  method Td(content: Option<string>, colspan: int, rowspan: int, css: Css, attrs: AttrDict) returns (r: string)
    modifies attrs
    ensures attrs.entries == SetAttr(SetAttr(old(attrs.entries), "colspan", IntToString(colspan)),
                                     "rowspan", IntToString(rowspan))
    ensures r == Tag("td", if content.Some? then content.value else "-", css, attrs.entries)
  {
    attrs.Set("colspan", IntToString(colspan));
    attrs.Set("rowspan", IntToString(rowspan));
    r := Tag("td", if content.Some? then content.value else "-", css, attrs.entries);
  }

  /** TABLE(thead, tbody, elem_id, css, attrs): sets the id in the given
      dictionary, then renders head and body. */
  method Table(thead: string, tbody: string, elemId: string, css: Css, attrs: AttrDict) returns (r: string)
    modifies attrs
    ensures attrs.entries == SetAttr(old(attrs.entries), "id", elemId)
    ensures r == Tag("table", thead + tbody, css, attrs.entries)
  {
    attrs.Set("id", elemId);
    r := Tag("table", thead + tbody, css, attrs.entries);
  }

  /** A dictionary that has been through TD carries the two spans, with the
      values of the last call, whatever it held before; a fresh one holds
      exactly colspan then rowspan. */
  lemma TdAttributes(before: Attrs, colspan: int, rowspan: int)
    requires UniqueKeys(before)
    ensures var after := SetAttr(SetAttr(before, "colspan", IntToString(colspan)), "rowspan", IntToString(rowspan));
      && Lookup(after, "colspan") == Some(IntToString(colspan))
      && Lookup(after, "rowspan") == Some(IntToString(rowspan))
      && UniqueKeys(after)
    ensures before == [] ==>
      SetAttr(SetAttr(before, "colspan", IntToString(colspan)), "rowspan", IntToString(rowspan))
        == [("colspan", IntToString(colspan)), ("rowspan", IntToString(rowspan))]
  {
    var mid := SetAttr(before, "colspan", IntToString(colspan));
    SetAttrSpec(before, "colspan", IntToString(colspan), "rowspan");
    SetAttrSpec(mid, "rowspan", IntToString(rowspan), "colspan");
  }
}
