// A printer for Link headers and the proof that the parser inverts it (section 3 of
// RFC 8288): names are tokens, values are tokens or quoted, in which case they may hold any
// character, and blanks may stand wherever the grammar allows them.

module LinkRoundTrip {
  import opened Basics
  import opened LinkHeader
  import opened LinkCombination

  /** How its author writes a parameter: the blanks before and after the semicolon, around the equals sign, and
      whether the value is quoted. */
  datatype Style = Style(before: string, afterSemicolon: string, afterName: string, afterEquals: string, quoted: bool)

  /** A link as its author writes it. */
  datatype Written = Written(target: string, params: seq<Param>, styles: seq<Style>)

  predicate AreBlanks(s: string) { forall i :: 0 <= i < |s| ==> IsBlank(s[i]) }

  /** A value that needs no quotes. */
  predicate IsToken(s: string) { s != "" && s[0] != '"' && forall i :: 0 <= i < |s| ==> !EndsToken(s[i]) }

  predicate IsStyle(p: Param, style: Style) {
    && AreBlanks(style.before) && AreBlanks(style.afterSemicolon) && AreBlanks(style.afterName) && AreBlanks(style.afterEquals)
    && (p.value.Some? && !style.quoted ==> IsToken(p.value.value))
  }

  predicate IsName(name: string) {
    name != "" && forall i :: 0 <= i < |name| ==> !EndsName(name[i])
  }

  predicate AreWritten(params: seq<Param>, styles: seq<Style>) {
    |styles| == |params| && forall i :: 0 <= i < |params| ==> IsName(params[i].name) && IsStyle(params[i], styles[i])
  }

  predicate WellFormed(link: Written) { HasNo(link.target, '>') && AreWritten(link.params, link.styles) }

  function Escape(value: string): string {
    if value == "" then ""
    else (if value[0] == '"' || value[0] == '\\' then ['\\', value[0]] else [value[0]]) + Escape(value[1..])
  }

  function PrintText(text: string, style: Style): string {
    if style.quoted then "\"" + (Escape(text) + "\"") else text
  }

  function PrintValue(value: Option<string>, style: Style): string {
    match value
    case None => ""
    case Some(v) => style.afterName + ("=" + (style.afterEquals + PrintText(v, style)))
  }

  function PrintParam(p: Param, style: Style, t: string): string {
    style.afterSemicolon + (p.name + (PrintValue(p.value, style) + t))
  }

  function PrintParams(params: seq<Param>, styles: seq<Style>): string
    requires |styles| == |params|
  {
    if params == [] then ""
    else styles[0].before + (";" + PrintParam(params[0], styles[0], PrintParams(params[1..], styles[1..])))
  }

  function PrintLink(link: Written): string
    requires |link.styles| == |link.params|
  {
    "<" + (link.target + (">" + PrintParams(link.params, link.styles)))
  }

  function PrintHeader(links: seq<Written>): string
    requires forall i :: 0 <= i < |links| ==> |links[i].styles| == |links[i].params|
  {
    if links == [] then ""
    else if |links| == 1 then PrintLink(links[0])
    else PrintLink(links[0]) + ("," + (" " + PrintHeader(links[1..])))
  }

  // ---------------------------------------------------------------- what a header means

  predicate IsValuedRel(p: Param) { Lower(p.name) == "rel" && p.value.Some? }

  predicate IsAnchor(p: Param) { Lower(p.name) == "anchor" }

  /** Whether `i` is the parameter that gives the relation of a link. */
  predicate GivesRelation(params: seq<Param>, i: int) {
    && 0 <= i < |params| && IsValuedRel(params[i])
    && forall j :: 0 <= j < i ==> !IsValuedRel(params[j])
  }

  /** A link is meant exactly when it has a valued `rel` and no `anchor`. */
  ghost predicate Means(link: Written, meaning: seq<Link>) {
    if (exists i :: GivesRelation(link.params, i)) && !(exists i :: 0 <= i < |link.params| && IsAnchor(link.params[i])) then
      forall i :: GivesRelation(link.params, i) ==>
        meaning == [Link(Trim(link.target), RelationTypes(link.params[i].value.value))]
    else
      meaning == []
  }

  /** `parts[i]` is what the i-th link means. */
  ghost predicate MeansEach(links: seq<Written>, parts: seq<seq<Link>>) {
    |parts| == |links| && forall i :: 0 <= i < |links| ==> Means(links[i], parts[i])
  }

  function Concat<T>(parts: seq<seq<T>>): seq<T> {
    if parts == [] then [] else parts[0] + Concat(parts[1..])
  }

  // ---------------------------------------------------------------- values and parameters

  lemma {:induction false} QuotedValue(v: string, t: string)
    ensures Unquote(Escape(v) + "\"" + t) == Value(v, t, true)
  {
    Associate(Escape(v), "\"", t);
    if v == "" {
      Append("", "\"" + t);
      Tail("\"", t);
      Append("", t);
    } else {
      hide Unquote;
      QuotedValue(v[1..], t);
      Associate(Escape(v[1..]), "\"", t);
      var mark := if v[0] == '"' || v[0] == '\\' then ['\\', v[0]] else [v[0]];
      Associate(mark, Escape(v[1..]), "\"" + t);
      UnquoteMarked(v[0], Escape(v[1..]) + ("\"" + t));
      assert v == [v[0]] + v[1..];
    }
  }

  /** One printed character of a quoted string is read back. */
  lemma UnquoteMarked(c: char, tail: string)
    ensures Unquote((if c == '"' || c == '\\' then ['\\', c] else [c]) + tail) ==
            Unquote(tail).(text := [c] + Unquote(tail).text)
  {
    assert (['\\', c] + tail)[2..] == tail && ([c] + tail)[1..] == tail;
  }

  /** `e` stands for the text `v` within quotes: any character may be escaped, and a quote or backslash must be. */
  predicate Encodes(e: string, v: string)
    decreases v
  {
    if v == "" then e == ""
    else
      || (e != "" && e[0] == v[0] && e[0] != '"' && e[0] != '\\' && Encodes(e[1..], v[1..]))
      || (|e| > 1 && e[0] == '\\' && e[1] == v[0] && Encodes(e[2..], v[1..]))
  }

  /** Whatever is written for a text is read as it: up to the closing quote, or up to the end of an unclosed one, where a
      last lone backslash is dropped. */
  lemma {:induction false} EncodedReads(e: string, v: string, t: string)
    requires Encodes(e, v)
    ensures Unquote(e + ("\"" + t)) == Value(v, t, true)
    ensures Unquote(e) == Value(v, "", false) && Unquote(e + "\\") == Value(v, "", false)
    decreases v
  {
    if v == "" {
      Append("", "\"" + t);
      Append("", "\\");
      Tail("\"", t);
      Append("\""[1..], t);
    } else {
      var k := if e[0] == '\\' then 2 else 1;
      DropInside(e, "\"" + t, k);
      DropInside(e, "\\", k);
      Tail(e, "\"" + t);
      Tail(e, "\\");
      EncodedReads(e[k..], v[1..], t);
      assert v == [v[0]] + v[1..];
      OneRead(e + ("\"" + t), k);
      OneRead(e, k);
      OneRead(e + "\\", k);
      hide Unquote, Encodes;
    }
  }

  /** One character, escaped or not, is taken off. */
  lemma OneRead(s: string, k: nat)
    requires (k == 1 && s != "" && s[0] != '"' && s[0] != '\\') || (k == 2 && |s| > 1 && s[0] == '\\')
    ensures Unquote(s) == Unquote(s[k..]).(text := [s[k - 1]] + Unquote(s[k..]).text)
  {
  }

  /** And everything that follows a quote is of one of these three kinds. */
  lemma {:induction false} UnquoteExact(s: string) returns (e: string)
    ensures Encodes(e, Unquote(s).text)
    ensures Unquote(s).closed ==> s == e + ("\"" + Unquote(s).rest)
    ensures !Unquote(s).closed ==> Unquote(s).rest == "" && (s == e || s == e + "\\")
    decreases |s|
  {
    if s == "" || s[0] == '"' || s == "\\" {
      e := "";
      if s != "" {
        assert s == [s[0]] + s[1..];
      }
    } else {
      var k := if s[0] == '\\' then 2 else 1;
      assert k == 2 ==> |s| > 1 by { if |s| == 1 { assert s == [s[0]]; } }
      OneRead(s, k);
      var rest := UnquoteExact(s[k..]);
      e := s[..k] + rest;
      var v := Unquote(s[k..]);
      assert s == s[..k] + s[k..];
      Associate(s[..k], rest, "\"" + v.rest);
      Associate(s[..k], rest, "\\");
      EncodesOne(s[..k], rest, v.text);
      hide Unquote, Encodes;
    }
  }

  lemma EncodesOne(one: string, rest: string, v: string)
    requires Encodes(rest, v)
    requires (|one| == 1 && one[0] != '"' && one[0] != '\\') || (|one| == 2 && one[0] == '\\')
    ensures Encodes(one + rest, [one[|one| - 1]] + v)
  {
    assert (one + rest)[|one|..] == rest && ([one[|one| - 1]] + v)[1..] == v;
  }

  lemma PrintedValue(v: string, t: string)
    ensures ValueOf("\"" + (Escape(v) + "\"") + t) == Value(v, t, true)
  {
    QuotedValue(v, t);
    Associate("\"", Escape(v) + "\"", t);
    Tail("\"", Escape(v) + "\"" + t);
    Append("", Escape(v) + "\"" + t);
    assert "\""[1..] == "";
    hide Unquote, Escape;
  }

  /** What may follow a parameter in the same link. */
  predicate ContinuesParams(t: string) {
    && (t == "" || t[0] == ';' || IsBlank(t[0]))
    && var rest := SkipWhile(t, IsBlank); rest == "" || rest[0] == ';'
  }

  lemma {:induction false} SkipAll(blanks: string, s: string, p: char -> bool)
    requires forall i :: 0 <= i < |blanks| ==> p(blanks[i])
    ensures SkipWhile(blanks + s, p) == SkipWhile(s, p)
  {
    if blanks == "" {
      Append(blanks, s);
    } else {
      Tail(blanks, s);
      SkipAll(blanks[1..], s, p);
    }
  }

  lemma NotBlank(s: string)
    requires s == "" || !IsBlank(s[0])
    ensures SkipWhile(s, IsBlank) == s
  {
  }

  lemma TokenValue(v: string, t: string)
    requires IsToken(v) && ContinuesParams(t)
    ensures ValueOf(v + t) == Value(v, t, true)
    ensures !IsBlank((v + t)[0])
  {
    var s := v + t;
    assert s[0] == v[0] && s[..|v|] == v && s[|v|..] == t;
    forall j | 0 <= j < |v| ensures !EndsToken(s[j]) {
      assert s[j] == v[j];
    }
    UntilHit(s, |v|, EndsToken);
    hide Until;
  }

  /** A printed value is read back in either style. */
  lemma TextReads(v: string, style: Style, t: string)
    requires ContinuesParams(t) && (!style.quoted ==> IsToken(v))
    ensures ValueOf(PrintText(v, style) + t) == Value(v, t, true)
    ensures PrintText(v, style) + t != "" && !IsBlank((PrintText(v, style) + t)[0])
  {
    hide ValueOf, Escape;
    if style.quoted {
      PrintedValue(v, t);
      Tail("\"", Escape(v) + "\"");
      Tail("\"" + (Escape(v) + "\""), t);
    } else {
      TokenValue(v, t);
    }
  }

  /** The rest after a parameter: without a value, the blanks that follow it are skipped as well. */
  function RestOf(p: Param, t: string): string { if p.value.Some? then t else SkipWhile(t, IsBlank) }

  lemma PrintedParam(p: Param, style: Style, t: string)
    requires IsName(p.name) && IsStyle(p, style) && ContinuesParams(t)
    ensures ParamOf(PrintParam(p, style, t)) == Params([Param(Lower(p.name), p.value)], RestOf(p, t), true)
  {
    var tail := PrintValue(p.value, style) + t;
    NameEnds(p, style, t);
    BlankThen(style.afterSemicolon, p.name, tail);
    NameBefore(p.name, tail);
    hide SkipWhile, Until, Lower, ValueOf, Escape, IsName, PrintText;
    if p.value.Some? {
      var text := PrintText(p.value.value, style);
      ValueParts(p.value.value, style, t);
      TextReads(p.value.value, style, t);
      SkipAll(style.afterName, "=" + (style.afterEquals + (text + t)), IsBlank);
      NotBlank("=" + (style.afterEquals + (text + t)));
      Tail("=", style.afterEquals + (text + t));
      Append("="[1..], style.afterEquals + (text + t));
      SkipAll(style.afterEquals, text + t, IsBlank);
      NotBlank(text + t);
      hide PrintValue, IsStyle;
    } else {
      Append("", t);
    }
  }

  lemma ValueParts(v: string, style: Style, t: string)
    ensures PrintValue(Some(v), style) + t == style.afterName + ("=" + (style.afterEquals + (PrintText(v, style) + t)))
  {
    hide PrintText;
    var text := PrintText(v, style);
    Associate(style.afterName, "=" + (style.afterEquals + text), t);
    Associate("=", style.afterEquals + text, t);
    Associate(style.afterEquals, text, t);
  }

  lemma NameEnds(p: Param, style: Style, t: string)
    requires ContinuesParams(t) && IsStyle(p, style)
    ensures var tail := PrintValue(p.value, style) + t; tail == "" || EndsName(tail[0])
  {
    hide PrintText, IsToken;
    if p.value.Some? {
      ValueParts(p.value.value, style, t);
      if style.afterName != "" {
        assert IsBlank(style.afterName[0]);
      }
    }
  }

  lemma BlankThen(blanks: string, name: string, tail: string)
    requires IsName(name) && AreBlanks(blanks)
    ensures SkipWhile(blanks + (name + tail), IsBlank) == name + tail
  {
    SkipAll(blanks, name + tail, IsBlank);
    assert (name + tail)[0] == name[0] && EndsName(' ') && EndsName('\t');
    NotBlank(name + tail);
    hide SkipWhile;
  }

  lemma NameBefore(name: string, tail: string)
    requires IsName(name) && (tail == "" || EndsName(tail[0]))
    ensures Until(name + tail, EndsName) == |name|
    ensures (name + tail)[..|name|] == name && (name + tail)[|name|..] == tail
  {
    UntilHit(name + tail, |name|, EndsName);
  }

  function LowerNames(params: seq<Param>): seq<Param> {
    if params == [] then [] else [Param(Lower(params[0].name), params[0].value)] + LowerNames(params[1..])
  }

  lemma {:induction false} PrintedParams(params: seq<Param>, styles: seq<Style>)
    requires AreWritten(params, styles)
    ensures ParamsOf(PrintParams(params, styles)) == Params(LowerNames(params), "", true)
    ensures ContinuesParams(PrintParams(params, styles))
  {
    if params != [] {
      var t := PrintParams(params[1..], styles[1..]);
      WrittenTail(params, styles);
      PrintedParams(params[1..], styles[1..]);
      PrintedParam(params[0], styles[0], t);
      ParamsStart(styles[0].before, PrintParam(params[0], styles[0], t));
      SkippedParams(t);
      hide SkipWhile, Until, ParamOf, ParamsOf, PrintParam, IsStyle, AreWritten;
      ParamsUnfold(PrintParams(params, styles));
    }
  }

  lemma WrittenTail(params: seq<Param>, styles: seq<Style>)
    requires AreWritten(params, styles) && params != []
    ensures AreWritten(params[1..], styles[1..]) && IsName(params[0].name) && IsStyle(params[0], styles[0])
    ensures AreBlanks(styles[0].before)
  {
    hide IsName, IsToken;
    assert forall i :: 0 <= i < |params[1..]| ==> params[1..][i] == params[i + 1] && styles[1..][i] == styles[i + 1];
  }

  lemma ParamsStart(blanks: string, rest: string)
    requires AreBlanks(blanks)
    ensures var s := blanks + (";" + rest);
            && SkipWhile(s, IsBlank) == ";" + rest && (";" + rest)[1..] == rest
            && s != "" && (s[0] == ';' || IsBlank(s[0]))
  {
    SkipAll(blanks, ";" + rest, IsBlank);
    NotBlank(";" + rest);
    if blanks != "" {
      Tail(blanks, ";" + rest);
    } else {
      Append(blanks, ";" + rest);
    }
    hide SkipWhile;
  }

  /** Blanks before a parameter do not matter. */
  lemma SkippedParams(t: string)
    ensures ParamsOf(SkipWhile(t, IsBlank)) == ParamsOf(t)
  {
    NotBlank(SkipWhile(t, IsBlank));
    hide *;
    ParamsUnfold(t);
    ParamsUnfold(SkipWhile(t, IsBlank));
  }

  // ---------------------------------------------------------------- links and headers

  lemma PrintedLink(link: Written)
    requires WellFormed(link)
    ensures Complete(PrintLink(link))
    ensures Links(PrintLink(link)) == LinkOf(Trim(link.target), LowerNames(link.params))
  {
    PrintedTarget(link);
    PrintedParams(link.params, link.styles);
    EmptyHeader();
    hide *;
    Append(LinkOf(Trim(link.target), LowerNames(link.params)), []);
    LinksUnfold(PrintLink(link));
  }

  lemma PrintedTarget(link: Written)
    requires WellFormed(link)
    ensures var s, open := PrintLink(link), PrintLink(link)[1..];
            && SkipWhile(s, IsSeparator) == s != "" && s[0] == '<'
            && Until(open, IsClose) == |link.target| < |open|
            && open[..|link.target|] == link.target && open[|link.target| + 1..] == PrintParams(link.params, link.styles)
  {
    var t := PrintParams(link.params, link.styles);
    UntilHit(link.target, |link.target|, IsClose);
    hide PrintParams, Until, SkipWhile;
    Tail("<", link.target + (">" + t));
    Append("<"[1..], link.target + (">" + t));
    LinkOpens(link.target + (">" + t));
    UntilAppend(link.target, ">" + t, IsClose);
    TargetEnds(link.target, t);
  }

  lemma LinkOpens(open: string)
    ensures SkipWhile("<" + open, IsSeparator) == "<" + open
  {
  }

  lemma TargetEnds(target: string, t: string)
    ensures (target + (">" + t))[..|target|] == target && (target + (">" + t))[|target| + 1..] == t
  {
  }

  lemma {:induction false} LoweredLink(link: Written)
    ensures Means(link, LinkOf(Trim(link.target), LowerNames(link.params)))
  {
    LoweredAt(link.params);
    LoweredRel(link.params);
    if Anchored(LowerNames(link.params)) {
      var i :| 0 <= i < |link.params| && LowerNames(link.params)[i].name == "anchor";
      assert IsAnchor(link.params[i]);
    } else {
      forall i | 0 <= i < |link.params| ensures !IsAnchor(link.params[i]) {
        assert LowerNames(link.params)[i].name != "anchor";
      }
    }
  }

  lemma {:induction false} LoweredAt(params: seq<Param>)
    ensures |LowerNames(params)| == |params|
    ensures forall i :: 0 <= i < |params| ==> LowerNames(params)[i] == Param(Lower(params[i].name), params[i].value)
  {
    if params != [] {
      LoweredAt(params[1..]);
    }
  }

  lemma {:induction false} LoweredRel(params: seq<Param>)
    ensures FirstRel(LowerNames(params)) == None <==> !exists i :: GivesRelation(params, i)
    ensures forall i :: GivesRelation(params, i) ==> FirstRel(LowerNames(params)) == params[i].value
  {
    if params != [] {
      LoweredRel(params[1..]);
      assert LowerNames(params)[1..] == LowerNames(params[1..]);
      if IsValuedRel(params[0]) {
        assert GivesRelation(params, 0);
      } else {
        forall i: int ensures GivesRelation(params, i) <==> i > 0 && GivesRelation(params[1..], i - 1) {
          if i > 0 && i < |params| {
            assert params[i] == params[1..][i - 1];
            assert (forall j :: 0 <= j < i ==> !IsValuedRel(params[j])) <==>
                   (forall j :: 0 <= j < i - 1 ==> !IsValuedRel(params[1..][j])) by {
              assert forall j :: 0 < j < i ==> params[j] == params[1..][j - 1];
              assert forall j :: 0 <= j < i - 1 ==> params[1..][j] == params[j + 1];
            }
          }
        }
        if i :| GivesRelation(params[1..], i) {
          assert GivesRelation(params, i + 1);
        }
      }
    }
  }

  /** Parsing a printed header gives what each of its links means, in order. */
  lemma {:induction false} RoundTrip(links: seq<Written>)
    requires forall i :: 0 <= i < |links| ==> WellFormed(links[i]) && |links[i].styles| == |links[i].params|
    ensures Complete(PrintHeader(links))
    ensures exists parts :: MeansEach(links, parts) && Links(PrintHeader(links)) == Concat(parts)
  {
    hide WellFormed, Means, MeansEach, Complete, Links, PrintLink, LinkOf;
    if links == [] {
      EmptyHeader();
      assert MeansEach(links, []) by { NothingMeant(); }
    } else {
      RoundTrip(links[1..]);
      var parts :| MeansEach(links[1..], parts) && Links(PrintHeader(links[1..])) == Concat(parts);
      var all := OneMoreLink(links, parts);
    }
  }

  lemma NothingMeant()
    ensures MeansEach([], [])
  {
  }

  lemma OneMoreLink(links: seq<Written>, parts: seq<seq<Link>>) returns (all: seq<seq<Link>>)
    requires links != [] && forall i :: 0 <= i < |links| ==> |links[i].styles| == |links[i].params|
    requires WellFormed(links[0])
    requires Complete(PrintHeader(links[1..])) && MeansEach(links[1..], parts) && Links(PrintHeader(links[1..])) == Concat(parts)
    ensures Complete(PrintHeader(links)) && MeansEach(links, all) && Links(PrintHeader(links)) == Concat(all)
  {
    var first := LinkOf(Trim(links[0].target), LowerNames(links[0].params));
    PrintedLink(links[0]);
    LoweredLink(links[0]);
    all := [first] + parts;
    MeansMore(links, first, parts);
    assert all[1..] == parts && Concat(all) == first + Concat(parts);
    hide WellFormed, Means, MeansEach, Complete, Links, PrintLink, LinkOf, Concat;
    if |links| == 1 {
      assert links[1..] == [];
      EmptyHeader();
      Append(first, []);
    } else {
      var rest := " " + PrintHeader(links[1..]);
      CombinationExact(PrintLink(links[0]));
      CompleteAppend(PrintLink(links[0]), rest);
      LeadingBlank(PrintHeader(links[1..]));
    }
  }

  lemma MeansMore(links: seq<Written>, first: seq<Link>, parts: seq<seq<Link>>)
    requires links != [] && Means(links[0], first) && MeansEach(links[1..], parts)
    ensures MeansEach(links, [first] + parts)
  {
    hide Means;
    assert forall i :: 0 < i < |links| ==> links[i] == links[1..][i - 1] && ([first] + parts)[i] == parts[i - 1];
  }

  lemma EmptyHeader()
    ensures Complete("") && Links("") == []
  {
  }

  lemma LeadingBlank(s: string)
    ensures Links(" " + s) == Links(s)
    ensures Complete(" " + s) == Complete(s)
  {
    assert SkipWhile(" ", IsSeparator) == "" by { assert " "[1..] == ""; }
    SkipMore(" ", s, IsSeparator);
    SameHead(" " + s, s);
    SameComplete(" " + s, s);
  }

  // ---------------------------------------------------------------- relation types

  predicate IsWord(s: string) { s != "" && forall i :: 0 <= i < |s| ==> !IsAsciiWhitespace(s[i]) }

  function LowerAll(words: seq<string>): (r: seq<string>)
    ensures |r| == |words|
    ensures forall i :: 0 <= i < |words| ==> r[i] == Lower(words[i])
  {
    seq(|words|, i requires 0 <= i < |words| => Lower(words[i]))
  }

  predicate IsGap(s: string) { forall i :: 0 <= i < |s| ==> IsAsciiWhitespace(s[i]) }

  /** A gap before every word and one after the last. */
  function Interleave(gaps: seq<string>, words: seq<string>): string
    requires |gaps| == |words| + 1
    decreases words
  {
    if words == [] then gaps[0] else gaps[0] + (words[0] + Interleave(gaps[1..], words[1..]))
  }

  /** `words` are the maximal runs without whitespace of a value, and `gaps` is what stands around them:
      only the first and the last gap may be empty. */
  predicate AreRuns(value: string, gaps: seq<string>, words: seq<string>) {
    && |gaps| == |words| + 1
    && (forall i :: 0 <= i < |words| ==> IsWord(words[i]))
    && (forall i :: 0 <= i < |gaps| ==> IsGap(gaps[i]))
    && (forall i :: 1 <= i < |words| ==> gaps[i] != "")
    && Interleave(gaps, words) == value
  }

  /** The relation types of any value are its maximal runs without whitespace in lower case, in order, whatever
      whitespace stands before, between and after them. */
  lemma {:induction false} RelationTypesExact(value: string)
    ensures exists gaps, words :: AreRuns(value, gaps, words)
    ensures forall gaps, words :: AreRuns(value, gaps, words) ==> RelationTypes(value) == LowerAll(words)
  {
    hide AreRuns, RelationTypes;
    var gaps, words := RunsOf(value);
    forall gaps, words | AreRuns(value, gaps, words) ensures RelationTypes(value) == LowerAll(words) {
      TypesOfRuns(value, gaps, words);
    }
  }

  lemma {:induction false} TypesOfRuns(value: string, gaps: seq<string>, words: seq<string>)
    requires AreRuns(value, gaps, words)
    ensures RelationTypes(value) == LowerAll(words)
    decreases words
  {
    hide RelationTypes, IsWord, IsGap, Lower;
    if words == [] {
      GapBefore(gaps[0], "");
      Append(gaps[0], "");
      FirstType("", "");
    } else {
      var rest := Interleave(gaps[1..], words[1..]);
      RunsTail(value, gaps, words);
      TypesOfRuns(rest, gaps[1..], words[1..]);
      hide Interleave, AreRuns;
      GapBefore(gaps[0], words[0] + rest);
      FirstType(words[0], rest);
      assert LowerAll(words) == [Lower(words[0])] + LowerAll(words[1..]);
    }
  }

  lemma RunsTail(value: string, gaps: seq<string>, words: seq<string>)
    requires AreRuns(value, gaps, words) && words != []
    ensures var rest := Interleave(gaps[1..], words[1..]);
            AreRuns(rest, gaps[1..], words[1..]) && (rest == "" || IsAsciiWhitespace(rest[0]))
    ensures IsGap(gaps[0]) && IsWord(words[0]) && value == gaps[0] + (words[0] + Interleave(gaps[1..], words[1..]))
  {
    hide IsWord;
    assert gaps[1..][0] == gaps[1];
    if |words| == 1 {
      assert Interleave(gaps[1..], words[1..]) == gaps[1];
    }
  }

  /** Every value has such runs. */
  lemma {:induction false} RunsOf(value: string) returns (gaps: seq<string>, words: seq<string>)
    ensures AreRuns(value, gaps, words)
    ensures value != "" && IsAsciiWhitespace(value[0]) ==> gaps[0] != ""
    decreases |value|
  {
    var start := SkipWhile(value, IsAsciiWhitespace);
    var gap := GapOf(value);
    if start == "" {
      gaps, words := [gap], [];
      Append(gap, start);
    } else {
      var end := Until(start, IsAsciiWhitespace);
      var word, rest := start[..end], start[end..];
      UntilMissed(start, IsAsciiWhitespace);
      assert start == word + rest;
      var moreGaps, moreWords := RunsOf(rest);
      gaps, words := [gap] + moreGaps, [word] + moreWords;
      hide SkipWhile, Until;
      RunsCons(value, gap, word, rest, moreGaps, moreWords);
    }
  }

  lemma RunsCons(value: string, gap: string, word: string, rest: string, gaps: seq<string>, words: seq<string>)
    requires AreRuns(rest, gaps, words) && IsGap(gap) && IsWord(word) && value == gap + (word + rest)
    requires rest == "" || gaps[0] != ""
    ensures AreRuns(value, [gap] + gaps, [word] + words)
  {
    hide IsGap, IsWord;
    var moreGaps, moreWords := [gap] + gaps, [word] + words;
    assert moreGaps[1..] == gaps && moreWords[1..] == words;
    if rest == "" && words != [] {
      RunsNotEmpty(rest, gaps, words);
    }
    assert words == [] || gaps[0] != "";
  }

  lemma RunsNotEmpty(value: string, gaps: seq<string>, words: seq<string>)
    requires AreRuns(value, gaps, words) && words != []
    ensures value != ""
  {
    assert IsWord(words[0]);
    assert |value| == |gaps[0]| + |words[0]| + |Interleave(gaps[1..], words[1..])|;
  }

  lemma {:induction false} GapOf(value: string) returns (gap: string)
    ensures IsGap(gap) && value == gap + SkipWhile(value, IsAsciiWhitespace)
    ensures value != "" && IsAsciiWhitespace(value[0]) ==> gap != ""
  {
    if value == "" || !IsAsciiWhitespace(value[0]) {
      gap := "";
    } else {
      var rest := GapOf(value[1..]);
      gap := [value[0]] + rest;
      assert value == [value[0]] + value[1..];
    }
  }

  lemma {:induction false} GapBefore(gap: string, s: string)
    requires IsGap(gap)
    ensures RelationTypes(gap + s) == RelationTypes(s)
  {
    SkipAll(gap, s, IsAsciiWhitespace);
    hide SkipWhile, Until, Lower, IsGap;
  }

  lemma FirstType(w: string, t: string)
    requires t == "" || IsAsciiWhitespace(t[0])
    ensures IsWord(w) ==> RelationTypes(w + t) == [Lower(w)] + RelationTypes(t)
    ensures RelationTypes("") == []
  {
    if IsWord(w) {
      var s := w + t;
      assert s[0] == w[0] && s[..|w|] == w && s[|w|..] == t;
      forall j | 0 <= j < |w| ensures !IsAsciiWhitespace(s[j]) {
        assert s[j] == w[j];
      }
      UntilHit(s, |w|, IsAsciiWhitespace);
      assert SkipWhile(s, IsAsciiWhitespace) == s;
      hide SkipWhile, Until, Lower;
    }
  }
}
