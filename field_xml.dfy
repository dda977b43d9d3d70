/** The field-definition XML the extension hands to the host: the builder
    (`FieldXmlFormat` with `AddFieldToList`, and `ParseAdditionalAttributes`),
    and a reader for exactly the shape the builder emits, which stands for
    the host parsing the XML. The reader is the builder's partner: reading
    back built XML gives the intended attribute list and body. No value is
    escaped, as in the original, so the round trip holds only for values
    without an apostrophe. */
module FieldXml {
  import opened Results
  import opened Text
  import opened FieldSchema

  /** One `K='v' ` piece of the format string. */
  function FixedSegment(key: string, value: string): string {
    key + "='" + value + "' "
  }

  /** One `name ='value' ` piece appended per extra attribute. */
  function ExtraSegment(a: Attr): string {
    a.name + " ='" + a.value + "' "
  }

  /** What a required field appends after its extra attributes. */
  const REQUIRED_TEXT: string := " Required = 'TRUE' "

  /** The extra attributes rendered in declaration order. */
  function AttrText(attrs: seq<Attr>): string {
    if attrs == [] then "" else ExtraSegment(attrs[0]) + AttrText(attrs[1..])
  }

  /** Rendering a concatenation is concatenating the renderings. */
  lemma {:induction false} AttrTextAppend(a: seq<Attr>, b: seq<Attr>)
    ensures AttrText(a + b) == AttrText(a) + AttrText(b)
  {
    if a == [] {
      assert a + b == b;
    } else {
      assert (a + b)[1..] == a[1..] + b;
      AttrTextAppend(a[1..], b);
    }
  }

  /** `ParseAdditionalAttributes`: a `StringBuilder` that appends one piece
      per extra attribute; an absent collection gives the empty string. */
  method ParseAdditionalAttributes(attrs: Option<seq<Attr>>) returns (s: string)
    ensures attrs.None? ==> s == ""
    ensures attrs.Some? ==> s == AttrText(attrs.value)
  {
    if attrs.None? {
      return "";
    }
    var xs := attrs.value;
    s := "";
    var i := 0;
    while i < |xs|
      invariant 0 <= i <= |xs|
      invariant s == AttrText(xs[..i])
    {
      AttrTextAppend(xs[..i], [xs[i]]);
      assert AttrText([xs[i]]) == ExtraSegment(xs[i]);
      assert xs[..i + 1] == xs[..i] + [xs[i]];
      s := s + ExtraSegment(xs[i]);
      i := i + 1;
    }
    assert xs[..i] == xs;
  }

  /** The display name written into a new field: the declared one, or the
      internal name when none (or an empty one) is declared. */
  function ShownName(displayName: Option<string>, internalName: string): string {
    if IsNullOrEmpty(displayName) then internalName else displayName.value
  }

  /** The five `K='v' ` pieces of `FieldXmlFormat`, in order. */
  function FixedText(attrs: seq<Attr>): string {
    if attrs == [] then "" else FixedSegment(attrs[0].name, attrs[0].value) + FixedText(attrs[1..])
  }

  /** The attributes every built field carries: `DisplayName` (the declared
      display name or, failing that, the internal name), `StaticName` and
      `Name` (both the internal name), `ID` (the braced GUID) and `Type`. */
  function FixedAttrs(fieldType: string, internalName: string, displayName: Option<string>, id: Guid): seq<Attr> {
    [ Attr("DisplayName", ShownName(displayName, internalName)),
      Attr("StaticName", internalName),
      Attr("Name", internalName),
      Attr("ID", "{" + id + "}"),
      Attr("Type", fieldType) ]
  }

  /** `string.Format(FieldXmlFormat, ...)` in `AddFieldToList`:
      `<Field DisplayName='..' StaticName='..' Name='..' ID='{..}' Type='..' ` then
      the extra attribute text, with ` Required = 'TRUE' ` appended for a
      required field, then `>`, the inner XML and `</Field>`. */
  function FieldXml(fieldType: string, internalName: string, displayName: Option<string>,
                    additionalAttr: string, innerXml: string, id: Guid, isRequired: bool): string
  {
    var extra := if isRequired then additionalAttr + REQUIRED_TEXT else additionalAttr;
    "<Field " + (FixedText(FixedAttrs(fieldType, internalName, displayName, id))
      + (extra + (">" + (innerXml + "</Field>"))))
  }

  /** The attribute list the built XML is meant to carry, in order. */
  function FieldAttrs(fieldType: string, internalName: string, displayName: Option<string>,
                      extras: seq<Attr>, id: Guid, isRequired: bool): seq<Attr>
  {
    FixedAttrs(fieldType, internalName, displayName, id)
    + extras
    + (if isRequired then [Attr("Required", "TRUE")] else [])
  }

  // ---------------------------------------------------------------------
  // Reading the XML back.

  predicate NoQuote(s: string) {
    forall i :: 0 <= i < |s| ==> s[i] != '\''
  }

  function SkipSpaces(s: string): (r: string)
    ensures |r| <= |s|
    ensures r == [] || r[0] != ' '
  {
    if s != [] && s[0] == ' ' then SkipSpaces(s[1..]) else s
  }

  /** Length of the longest prefix made of name characters. */
  function NameLength(s: string): (n: nat)
    ensures n <= |s|
  {
    if s != [] && IsNameChar(s[0]) then 1 + NameLength(s[1..]) else 0
  }

  /** Index of the first apostrophe, or the length when there is none. */
  function QuoteIndex(s: string): (n: nat)
    ensures n <= |s|
  {
    if s == [] || s[0] == '\'' then 0 else 1 + QuoteIndex(s[1..])
  }

  /** One attribute `name = 'value'` at the start of `t`, and what follows it. */
  function ParseAttr(t: string): (r: Option<(Attr, string)>)
    ensures r.Some? ==> |r.value.1| < |t|
  {
    var n := NameLength(t);
    if n == 0 then None
    else
      var u := SkipSpaces(t[n..]);
      if u == [] || u[0] != '=' then None
      else
        var v := SkipSpaces(u[1..]);
        if v == [] || v[0] != '\'' then None
        else
          var m := QuoteIndex(v[1..]);
          if m == |v| - 1 then None
          else Some((Attr(t[..n], v[1..m + 1]), v[m + 2..]))
  }

  function Prepend(a: Attr, p: Option<(seq<Attr>, string)>): Option<(seq<Attr>, string)> {
    match p
    case None => None
    case Some((attrs, rest)) => Some(([a] + attrs, rest))
  }

  function PrependAll(xs: seq<Attr>, p: Option<(seq<Attr>, string)>): Option<(seq<Attr>, string)> {
    match p
    case None => None
    case Some((attrs, rest)) => Some((xs + attrs, rest))
  }

  /** Attributes separated by spaces, up to and including the `>` that closes
      the start tag; gives the attributes and what follows the `>`. */
  function ParseAttrs(s: string): Option<(seq<Attr>, string)>
    decreases |s|
  {
    var t := SkipSpaces(s);
    if t == [] then None
    else if t[0] == '>' then Some(([], t[1..]))
    else match ParseAttr(t)
      case None => None
      case Some((a, rest)) => Prepend(a, ParseAttrs(rest))
  }

  /** The host's reading of a field definition: `<Field ` attributes `>`
      body `</Field>`, with no attribute name repeated (XML forbids that). */
  function ParseElement(xml: string): Option<Element> {
    if |xml| < 7 || xml[..7] != "<Field " then None
    else match ParseAttrs(xml[7..])
      case None => None
      case Some((attrs, rest)) =>
        if |rest| >= 8 && rest[|rest| - 8..] == "</Field>" && DistinctNames(attrs)
        then Some(Element(attrs, rest[..|rest| - 8]))
        else None
  }

  lemma ParseAttrsSpace(s: string)
    ensures ParseAttrs(" " + s) == ParseAttrs(s)
  {
    assert (" " + s)[1..] == s;
  }

  lemma SkipNoSpace(s: string)
    requires s == [] || s[0] != ' '
    ensures SkipSpaces(s) == s
  {
  }

  lemma SkipOptionalSpace(sp: string, s: string)
    requires sp == "" || sp == " "
    requires s == [] || s[0] != ' '
    ensures SkipSpaces(sp + s) == s
  {
    if sp == " " {
      assert (sp + s)[1..] == s;
    } else {
      assert sp + s == s;
    }
  }

  lemma {:induction false} NameLengthOf(k: string, rest: string)
    requires forall i :: 0 <= i < |k| ==> IsNameChar(k[i])
    requires rest == [] || !IsNameChar(rest[0])
    ensures NameLength(k + rest) == |k|
  {
    if k != [] {
      assert (k + rest)[1..] == k[1..] + rest;
      NameLengthOf(k[1..], rest);
    } else {
      assert k + rest == rest;
    }
  }

  lemma {:induction false} QuoteIndexOf(v: string, rest: string)
    requires NoQuote(v)
    ensures QuoteIndex(v + ("'" + rest)) == |v|
  {
    if v != [] {
      assert (v + ("'" + rest))[1..] == v[1..] + ("'" + rest);
      QuoteIndexOf(v[1..], rest);
    } else {
      assert v + ("'" + rest) == "'" + rest;
    }
  }

  lemma ParseAttrStep(t: string, n: nat, u: string, v: string, m: nat)
    requires n == NameLength(t) && n > 0
    requires u == SkipSpaces(t[n..]) && u != [] && u[0] == '='
    requires v == SkipSpaces(u[1..]) && v != [] && v[0] == '\''
    requires m == QuoteIndex(v[1..]) && m < |v| - 1
    ensures ParseAttr(t) == Some((Attr(t[..n], v[1..m + 1]), v[m + 2..]))
  {
  }

  lemma NamePart(k: string, afterK: string)
    requires ValidAttrName(k)
    requires afterK != [] && (afterK[0] == ' ' || afterK[0] == '=')
    ensures NameLength(k + afterK) == |k|
    ensures (k + afterK)[..|k|] == k && (k + afterK)[|k|..] == afterK
  {
    NameLengthOf(k, afterK);
  }

  lemma QuotedPart(v: string, rest: string)
    requires NoQuote(v)
    ensures var quoted := "'" + (v + ("'" + rest));
      QuoteIndex(quoted[1..]) == |v| && quoted[1..|v| + 1] == v && quoted[|v| + 2..] == rest
  {
    var quoted := "'" + (v + ("'" + rest));
    assert quoted[1..] == v + ("'" + rest);
    QuoteIndexOf(v, rest);
  }

  lemma EqualsPart(sp2: string, quoted: string)
    requires sp2 == "" || sp2 == " "
    requires quoted != [] && quoted[0] == '\''
    ensures ("=" + (sp2 + quoted))[1..] == sp2 + quoted
    ensures SkipSpaces(sp2 + quoted) == quoted
  {
    SkipOptionalSpace(sp2, quoted);
  }

  /** One attribute `k` `=` `'v'`, with an optional space on either side of
      the equals sign, is read as that attribute, leaving what follows. */
  lemma ParseOneAttrHead(k: string, sp1: string, sp2: string, v: string, rest: string)
    requires ValidAttrName(k) && NoQuote(v)
    requires sp1 == "" || sp1 == " "
    requires sp2 == "" || sp2 == " "
    ensures ParseAttr(k + (sp1 + ("=" + (sp2 + ("'" + (v + ("'" + rest))))))) == Some((Attr(k, v), rest))
  {
    var quoted := "'" + (v + ("'" + rest));
    var eq := "=" + (sp2 + quoted);
    var afterK := sp1 + eq;
    var s := k + afterK;
    assert afterK[0] == ' ' || afterK[0] == '=';
    NamePart(k, afterK);
    SkipOptionalSpace(sp1, eq);
    EqualsPart(sp2, quoted);
    QuotedPart(v, rest);
    ParseAttrStep(s, |k|, eq, quoted, |v|);
  }

  /** The same attribute at the start of an attribute run. */
  lemma ParseOneAttr(k: string, sp1: string, sp2: string, v: string, rest: string)
    requires ValidAttrName(k) && NoQuote(v)
    requires sp1 == "" || sp1 == " "
    requires sp2 == "" || sp2 == " "
    ensures ParseAttrs(k + (sp1 + ("=" + (sp2 + ("'" + (v + ("'" + rest))))))) ==
            Prepend(Attr(k, v), ParseAttrs(rest))
  {
    var s := k + (sp1 + ("=" + (sp2 + ("'" + (v + ("'" + rest))))));
    ParseOneAttrHead(k, sp1, sp2, v, rest);
    assert s[0] == k[0];
    SkipNoSpace(s);
  }

  lemma ParseFixedSegment(k: string, v: string, rest: string)
    requires ValidAttrName(k) && NoQuote(v)
    ensures ParseAttrs(FixedSegment(k, v) + rest) == Prepend(Attr(k, v), ParseAttrs(rest))
  {
    assert FixedSegment(k, v) + rest == k + ("" + ("=" + ("" + ("'" + (v + ("'" + (" " + rest)))))));
    ParseOneAttr(k, "", "", v, " " + rest);
    ParseAttrsSpace(rest);
  }

  lemma ParseExtraSegment(a: Attr, rest: string)
    requires ValidAttrName(a.name) && NoQuote(a.value)
    ensures ParseAttrs(ExtraSegment(a) + rest) == Prepend(a, ParseAttrs(rest))
  {
    assert ExtraSegment(a) + rest == a.name + (" " + ("=" + ("" + ("'" + (a.value + ("'" + (" " + rest)))))));
    ParseOneAttr(a.name, " ", "", a.value, " " + rest);
    ParseAttrsSpace(rest);
  }

  lemma ParseRequired(rest: string)
    ensures ParseAttrs(REQUIRED_TEXT + rest) == Prepend(Attr("Required", "TRUE"), ParseAttrs(rest))
  {
    var after := " " + rest;
    var tail := "Required" + (" " + ("=" + (" " + ("'" + ("TRUE" + ("'" + after))))));
    assert ValidAttrName("Required");
    assert NoQuote("TRUE");
    assert REQUIRED_TEXT == " " + "Required" + " " + "=" + " " + "'" + "TRUE" + "'" + " ";
    assert REQUIRED_TEXT + rest == " " + tail;
    ParseAttrsSpace(tail);
    ParseOneAttr("Required", " ", " ", "TRUE", after);
    ParseAttrsSpace(rest);
  }

  lemma PrependCons(xs: seq<Attr>, p: Option<(seq<Attr>, string)>)
    requires xs != []
    ensures Prepend(xs[0], PrependAll(xs[1..], p)) == PrependAll(xs, p)
  {
    if p.Some? {
      assert [xs[0]] + (xs[1..] + p.value.0) == xs + p.value.0;
    }
  }

  /** Reading rendered extra attributes gives them back, in order. */
  lemma {:induction false} ParseAttrText(xs: seq<Attr>, rest: string)
    requires forall i :: 0 <= i < |xs| ==> ValidAttrName(xs[i].name) && NoQuote(xs[i].value)
    ensures ParseAttrs(AttrText(xs) + rest) == PrependAll(xs, ParseAttrs(rest))
  {
    if xs == [] {
      assert AttrText(xs) + rest == rest;
      var p := ParseAttrs(rest);
      assert p.Some? ==> xs + p.value.0 == p.value.0;
    } else {
      var s2 := AttrText(xs[1..]) + rest;
      assert AttrText(xs) + rest == ExtraSegment(xs[0]) + s2;
      ParseExtraSegment(xs[0], s2);
      ParseAttrText(xs[1..], rest);
      PrependCons(xs, ParseAttrs(rest));
    }
  }

  lemma ParseClose(body: string)
    ensures ParseAttrs(">" + body) == Some(([], body))
  {
    assert (">" + body)[1..] == body;
  }

  /** The conditions under which the unescaped XML reads back as meant:
      no value contains an apostrophe, extra attribute names are names,
      and no attribute name occurs twice. */
  predicate RoundTrips(fieldType: string, internalName: string, displayName: Option<string>,
                       extras: seq<Attr>, isRequired: bool)
  {
    && NoQuote(ShownName(displayName, internalName))
    && NoQuote(internalName)
    && NoQuote(fieldType)
    && (forall i :: 0 <= i < |extras| ==> ValidAttrName(extras[i].name) && NoQuote(extras[i].value))
    && DistinctNames(FieldAttrs(fieldType, internalName, displayName, extras, "", isRequired))
  }

  /** The attribute names of a built field do not depend on its GUID. */
  lemma FieldAttrsNames(fieldType: string, internalName: string, displayName: Option<string>,
                        extras: seq<Attr>, isRequired: bool, id: Guid, id2: Guid)
    ensures var a := FieldAttrs(fieldType, internalName, displayName, extras, id, isRequired);
            var b := FieldAttrs(fieldType, internalName, displayName, extras, id2, isRequired);
            |a| == |b| && forall i :: 0 <= i < |a| ==> a[i].name == b[i].name
  {
  }

  lemma GuidNoQuote(id: Guid)
    ensures NoQuote("{" + id + "}")
  {
    var idText := "{" + id + "}";
    assert forall i :: 0 <= i < |id| ==> IsGuidChar(id[i]);
    assert forall i :: 0 < i < |idText| - 1 ==> idText[i] == id[i - 1];
  }

  /** Rendered fixed attributes read back in order. */
  lemma {:induction false} ParseFixedText(xs: seq<Attr>, rest: string)
    requires forall i :: 0 <= i < |xs| ==> ValidAttrName(xs[i].name) && NoQuote(xs[i].value)
    ensures ParseAttrs(FixedText(xs) + rest) == PrependAll(xs, ParseAttrs(rest))
  {
    if xs == [] {
      assert FixedText(xs) + rest == rest;
      var p := ParseAttrs(rest);
      assert p.Some? ==> xs + p.value.0 == p.value.0;
    } else {
      var s2 := FixedText(xs[1..]) + rest;
      assert FixedText(xs) + rest == FixedSegment(xs[0].name, xs[0].value) + s2;
      ParseFixedSegment(xs[0].name, xs[0].value, s2);
      ParseFixedText(xs[1..], rest);
      PrependCons(xs, ParseAttrs(rest));
    }
  }

  /** The extra attributes, the optional `Required`, and the close of the start tag. */
  lemma ParseTailPart(extras: seq<Attr>, isRequired: bool, innerXml: string)
    requires forall i :: 0 <= i < |extras| ==> ValidAttrName(extras[i].name) && NoQuote(extras[i].value)
    ensures ParseAttrs(AttrText(extras) + ((if isRequired then REQUIRED_TEXT else "") + (">" + (innerXml + "</Field>"))))
         == Some((extras + (if isRequired then [Attr("Required", "TRUE")] else []), innerXml + "</Field>"))
  {
    var tail := innerXml + "</Field>";
    var close := ">" + tail;
    var r6 := (if isRequired then REQUIRED_TEXT else "") + close;
    ParseClose(tail);
    var tailAttrs: seq<Attr> := if isRequired then [Attr("Required", "TRUE")] else [];
    assert ParseAttrs(r6) == Some((tailAttrs, tail)) by {
      if isRequired {
        ParseRequired(close);
        assert [Attr("Required", "TRUE")] + [] == tailAttrs;
      } else {
        assert r6 == close;
      }
    }
    ParseAttrText(extras, r6);
  }

  /** Reading the built field XML back gives exactly the intended attributes,
      in order (`DisplayName`, `StaticName`, `Name`, `ID`, `Type`, the extra
      attributes, then `Required` when required), and the inner XML as body. */
  lemma FixedAttrsReadable(fieldType: string, internalName: string, displayName: Option<string>, id: Guid)
    requires NoQuote(ShownName(displayName, internalName)) && NoQuote(internalName) && NoQuote(fieldType)
    ensures var xs := FixedAttrs(fieldType, internalName, displayName, id);
            forall i :: 0 <= i < |xs| ==> ValidAttrName(xs[i].name) && NoQuote(xs[i].value)
  {
    GuidNoQuote(id);
    assert ValidAttrName("DisplayName") && ValidAttrName("StaticName") && ValidAttrName("Name");
    assert ValidAttrName("ID") && ValidAttrName("Type");
  }

  lemma ParseElementOf(r0: string, attrs: seq<Attr>, body: string)
    requires ParseAttrs(r0) == Some((attrs, body + "</Field>")) && DistinctNames(attrs)
    ensures ParseElement("<Field " + r0) == Some(Element(attrs, body))
  {
    var xml := "<Field " + r0;
    assert xml[..7] == "<Field " && xml[7..] == r0;
    var tail := body + "</Field>";
    assert tail[|tail| - 8..] == "</Field>" && tail[..|tail| - 8] == body;
  }

  /** The built XML is the start tag, the fixed attributes, the extra
      attributes, the optional `Required`, `>`, the body and the end tag. */
  lemma FieldXmlShape(fieldType: string, internalName: string, displayName: Option<string>,
                      extras: seq<Attr>, innerXml: string, id: Guid, isRequired: bool)
    ensures FieldXml(fieldType, internalName, displayName, AttrText(extras), innerXml, id, isRequired)
         == "<Field " + (FixedText(FixedAttrs(fieldType, internalName, displayName, id))
              + (AttrText(extras) + ((if isRequired then REQUIRED_TEXT else "") + (">" + (innerXml + "</Field>")))))
  {
    var tail := innerXml + "</Field>";
    var req := if isRequired then REQUIRED_TEXT else "";
    var extra := if isRequired then AttrText(extras) + REQUIRED_TEXT else AttrText(extras);
    assert extra + (">" + tail) == AttrText(extras) + (req + (">" + tail));
  }

  /** The attribute list of a built field has no repeated name. */
  lemma FieldAttrsDistinct(fieldType: string, internalName: string, displayName: Option<string>,
                           extras: seq<Attr>, id: Guid, isRequired: bool)
    requires RoundTrips(fieldType, internalName, displayName, extras, isRequired)
    ensures DistinctNames(FieldAttrs(fieldType, internalName, displayName, extras, id, isRequired))
  {
    FieldAttrsNames(fieldType, internalName, displayName, extras, isRequired, id, "");
  }

  lemma FieldXmlRoundTrip(fieldType: string, internalName: string, displayName: Option<string>,
                          extras: seq<Attr>, innerXml: string, id: Guid, isRequired: bool)
    requires RoundTrips(fieldType, internalName, displayName, extras, isRequired)
    ensures ParseElement(FieldXml(fieldType, internalName, displayName, AttrText(extras), innerXml, id, isRequired))
         == Some(Element(FieldAttrs(fieldType, internalName, displayName, extras, id, isRequired), innerXml))
  {
    var r0 := BuiltAttrText(fieldType, internalName, displayName, extras, innerXml, id, isRequired);
    var attrs := FieldAttrs(fieldType, internalName, displayName, extras, id, isRequired);
    FieldAttrsDistinct(fieldType, internalName, displayName, extras, id, isRequired);
    FieldXmlShape(fieldType, internalName, displayName, extras, innerXml, id, isRequired);
    ParseAttrsBuilt(fieldType, internalName, displayName, extras, innerXml, id, isRequired);
    ParseElementOf(r0, attrs, innerXml);
  }

  /** What follows `<Field ` in the built XML. */
  function BuiltAttrText(fieldType: string, internalName: string, displayName: Option<string>,
                         extras: seq<Attr>, innerXml: string, id: Guid, isRequired: bool): string
  {
    FixedText(FixedAttrs(fieldType, internalName, displayName, id))
      + (AttrText(extras) + ((if isRequired then REQUIRED_TEXT else "") + (">" + (innerXml + "</Field>"))))
  }

  /** The attribute run of the built XML reads back as the intended list. */
  lemma ParseAttrsBuilt(fieldType: string, internalName: string, displayName: Option<string>,
                        extras: seq<Attr>, innerXml: string, id: Guid, isRequired: bool)
    requires RoundTrips(fieldType, internalName, displayName, extras, isRequired)
    ensures ParseAttrs(BuiltAttrText(fieldType, internalName, displayName, extras, innerXml, id, isRequired))
         == Some((FieldAttrs(fieldType, internalName, displayName, extras, id, isRequired), innerXml + "</Field>"))
  {
    var fixed := FixedAttrs(fieldType, internalName, displayName, id);
    var req: seq<Attr> := if isRequired then [Attr("Required", "TRUE")] else [];
    var r5 := AttrText(extras) + ((if isRequired then REQUIRED_TEXT else "") + (">" + (innerXml + "</Field>")));
    assert ParseAttrs(r5) == Some((extras + req, innerXml + "</Field>")) by {
      ParseTailPart(extras, isRequired, innerXml);
    }
    assert ParseAttrs(FixedText(fixed) + r5) == PrependAll(fixed, ParseAttrs(r5)) by {
      FixedAttrsReadable(fieldType, internalName, displayName, id);
      ParseFixedText(fixed, r5);
    }
    assert fixed + (extras + req) == FieldAttrs(fieldType, internalName, displayName, extras, id, isRequired);
  }
}
