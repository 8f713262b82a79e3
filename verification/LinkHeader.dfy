// The Link header parser of ai-catalog-discover (section 3 and Appendix B.2 of RFC 8288).
//
// The functions below say what the cursor loops of the parser compute; the methods
// are those loops. A printer for well-formed headers and the flag `Complete` for
// arbitrary ones are the references that the parser is proved against.

module LinkHeader {
  import opened Basics

  /** A link that carries a relation: its target and its lowercased relation types. */
  datatype Link = Link(target: string, rel: seq<string>)

  datatype Param = Param(name: string, value: Option<string>)

  /** A value, the unparsed rest, and whether an opening quote (if any) was closed. */
  datatype Value = Value(text: string, rest: string, closed: bool)

  /** Parameters, the unparsed rest, and whether every quoted value was closed. */
  datatype Params = Params(params: seq<Param>, rest: string, closed: bool)

  predicate IsBlank(c: char) { c == ' ' || c == '\t' }

  predicate IsSeparator(c: char) { IsBlank(c) || c == ',' }

  predicate IsComma(c: char) { c == ',' }

  predicate IsClose(c: char) { c == '>' }

  predicate EndsToken(c: char) { c == ';' || c == ',' || IsAsciiWhitespace(c) }

  predicate EndsName(c: char) { c == '=' || EndsToken(c) }

  // ---------------------------------------------------------------- specification

  /** Reads a quoted string, from after the opening quote. */
  function Unquote(s: string): (v: Value)
    ensures |v.rest| <= |s|
  {
    if s == "" then Value("", "", false)
    else if s[0] == '"' then Value("", s[1..], true)
    else if s[0] == '\\' then
      if |s| == 1 then Value("", "", false)
      else var v := Unquote(s[2..]); v.(text := [s[1]] + v.text)
    else var v := Unquote(s[1..]); v.(text := [s[0]] + v.text)
  }

  function ValueOf(s: string): (v: Value)
    ensures |v.rest| <= |s|
  {
    if s != "" && s[0] == '"' then Unquote(s[1..])
    else var end := Until(s, EndsToken); Value(s[..end], s[end..], true)
  }

  /** One `; name=value` from after the semicolon; a nameless parameter counts for nothing. */
  function ParamOf(s: string): (r: Params)
    ensures |r.rest| <= |s|
  {
    var start := SkipWhile(s, IsBlank);
    var end := Until(start, EndsName);
    var name := Lower(start[..end]);
    var after := SkipWhile(start[end..], IsBlank);
    if after != "" && after[0] == '=' then
      var v := ValueOf(SkipWhile(after[1..], IsBlank));
      Params(if name == "" then [] else [Param(name, Some(v.text))], v.rest, v.closed)
    else
      Params(if name == "" then [] else [Param(name, None)], after, true)
  }

  /** Parameters up to the comma before the next link. */
  function ParamsOf(s: string): (r: Params)
    ensures |r.rest| <= |s|
    ensures r.rest != "" ==> r.rest[0] == ','
    decreases |s|
  {
    var start := SkipWhile(s, IsBlank);
    if start == "" || start[0] != ';' then
      Params([], start[Until(start, IsComma)..], true)
    else
      var first := ParamOf(start[1..]);
      var more := ParamsOf(first.rest);
      Params(first.params + more.params, more.rest, first.closed && more.closed)
  }

  /** The value of the first `rel` parameter that has one. */
  function FirstRel(params: seq<Param>): Option<string> {
    if params == [] then None
    else if params[0].name == "rel" && params[0].value.Some? then params[0].value
    else FirstRel(params[1..])
  }

  predicate Anchored(params: seq<Param>) {
    exists i :: 0 <= i < |params| && params[i].name == "anchor"
  }

  function RelationTypes(value: string): (types: seq<string>)
    decreases |value|
  {
    var start := SkipWhile(value, IsAsciiWhitespace);
    if start == "" then []
    else
      var end := Until(start, IsAsciiWhitespace);
      [Lower(start[..end])] + RelationTypes(start[end..])
  }

  /** The link that a target and its parameters denote, if any. */
  function LinkOf(target: string, params: seq<Param>): seq<Link> {
    match FirstRel(params)
    case Some(rel) => if Anchored(params) then [] else [Link(target, RelationTypes(rel))]
    case None => []
  }

  /** The links of a field value. */
  function Links(s: string): seq<Link>
    decreases |s|
  {
    var start := SkipWhile(s, IsSeparator);
    if start == "" then []
    else if start[0] != '<' then Links(start[Until(start, IsComma)..])
    else
      var open := start[1..];
      var close := Until(open, IsClose);
      if close == |open| then []
      else
        var p := ParamsOf(open[close + 1..]);
        LinkOf(Trim(open[..close]), p.params) + Links(p.rest)
  }

  /** Whether `s` ends outside an angle bracket and outside a quoted string. */
  predicate Complete(s: string)
    decreases |s|
  {
    var start := SkipWhile(s, IsSeparator);
    if start == "" then true
    else if start[0] != '<' then Complete(start[Until(start, IsComma)..])
    else
      var open := start[1..];
      var close := Until(open, IsClose);
      && close < |open|
      && var p := ParamsOf(open[close + 1..]); p.closed && Complete(p.rest)
  }

  /** The targets of the links in `headers` that have the relation type `rel`, in order. */
  function TargetsWithRel(headers: seq<string>, rel: string): seq<string> {
    if headers == [] then []
    else Matching(Links(headers[0]), rel) + TargetsWithRel(headers[1..], rel)
  }

  function Matching(links: seq<Link>, rel: string): seq<string> {
    if links == [] then []
    else (if rel in links[0].rel then [links[0].target] else []) + Matching(links[1..], rel)
  }

  // ---------------------------------------------------------------- the parser

  method ParseValue(input: string) returns (value: string, rest: string)
    ensures value == ValueOf(input).text && rest == ValueOf(input).rest
  {
    if input == "" || input[0] != '"' {
      var end := Until(input, EndsToken);
      return input[..end], input[end..];
    }
    var chars := input[1..];
    value := "";
    while chars != ""
      invariant value + Unquote(chars).text == ValueOf(input).text
      invariant Unquote(chars).rest == ValueOf(input).rest
      decreases |chars|
    {
      var c := chars[0];
      UnquoteStep(value, chars);
      chars := chars[1..];
      if c == '"' {
        return value, chars;
      } else if c == '\\' {
        if chars != "" {
          value := value + [chars[0]];
          chars := chars[1..];
        }
      } else {
        value := value + [c];
      }
    }
    rest := "";
  }

  /** One step of the quoted-string loop: what it has read and what is still to come. */
  lemma UnquoteStep(value: string, chars: string)
    requires chars != ""
    ensures var all, next := value + Unquote(chars).text, chars[1..];
            if chars[0] == '"' then all == value && Unquote(chars).rest == next
            else if chars[0] != '\\' then
              all == (value + [chars[0]]) + Unquote(next).text && Unquote(chars).rest == Unquote(next).rest
            else if next == "" then all == value && Unquote(chars).rest == ""
            else all == (value + [next[0]]) + Unquote(next[1..]).text && Unquote(chars).rest == Unquote(next[1..]).rest
  {
    if chars[0] == '\\' && |chars| > 1 {
      assert chars[1..][1..] == chars[2..];
      Associate(value, [chars[1]], Unquote(chars[2..]).text);
    } else {
      Associate(value, [chars[0]], Unquote(chars[1..]).text);
    }
  }

  method ParseParams(input: string) returns (params: seq<Param>, remainder: string)
    ensures params == ParamsOf(input).params && remainder == ParamsOf(input).rest
  {
    hide SkipWhile, Until, Lower, ValueOf, ParamsOf;
    var rest := input;
    params := [];
    while true
      invariant params + ParamsOf(rest).params == ParamsOf(input).params
      invariant ParamsOf(rest).rest == ParamsOf(input).rest
      decreases |rest|
    {
      ParamsStep(params, rest);
      rest := SkipWhile(rest, IsBlank);
      if rest == "" || rest[0] != ';' {
        return params, rest[Until(rest, IsComma)..];
      }
      ghost var first := ParamOf(rest[1..]);
      rest := SkipWhile(rest[1..], IsBlank);
      var nameEnd := Until(rest, EndsName);
      var name := Lower(rest[..nameEnd]);
      rest := SkipWhile(rest[nameEnd..], IsBlank);
      var value := None;
      if rest != "" && rest[0] == '=' {
        var text;
        text, rest := ParseValue(SkipWhile(rest[1..], IsBlank));
        value := Some(text);
      }
      assert rest == first.rest;
      if name != "" {
        params := params + [Param(name, value)];
      }
    }
  }

  /** One step of the parameter loop. */
  lemma ParamsStep(params: seq<Param>, rest: string)
    ensures var start, all := SkipWhile(rest, IsBlank), params + ParamsOf(rest).params;
            if start == "" || start[0] != ';' then
              all == params && ParamsOf(rest).rest == start[Until(start, IsComma)..]
            else
              var first := ParamOf(start[1..]);
              && all == params + first.params + ParamsOf(first.rest).params
              && ParamsOf(rest).rest == ParamsOf(first.rest).rest
              && (first.params == [] ==> all == params + ParamsOf(first.rest).params)
  {
    hide *;
    ParamsUnfold(rest);
    var start := SkipWhile(rest, IsBlank);
    if start == "" || start[0] != ';' {
      Append(params, []);
    } else {
      var first := ParamOf(start[1..]);
      Associate(params, first.params, ParamsOf(first.rest).params);
      if first.params == [] {
        Append([], ParamsOf(first.rest).params);
      }
    }
  }

  lemma ParamsUnfold(s: string)
    ensures var start := SkipWhile(s, IsBlank);
            ParamsOf(s) ==
            if start == "" || start[0] != ';' then Params([], start[Until(start, IsComma)..], true)
            else
              var first := ParamOf(start[1..]);
              var more := ParamsOf(first.rest);
              Params(first.params + more.params, more.rest, first.closed && more.closed)
  {
    hide SkipWhile, Until, Lower, ValueOf, ParamOf;
  }

  method Parse(value: string) returns (links: seq<Link>)
    ensures links == Links(value)
  {
    hide SkipWhile, Until, Trim, FirstRel, Anchored, RelationTypes, Links;
    links := [];
    var rest := value;
    while true
      invariant links + Links(rest) == Links(value)
      decreases |rest|
    {
      LinksStep(links, rest);
      rest := SkipWhile(rest, IsSeparator);
      if rest == "" || rest[0] != '<' {
        // Junk between links: resume at the next comma, if any.
        var comma := Until(rest, IsComma);
        if comma == |rest| {
          break;
        }
        rest := rest[comma..];
        continue;
      }
      var open := rest[1..];
      var close := Until(open, IsClose);
      if close == |open| {
        break;
      }
      var target := Trim(open[..close]);
      var params;
      params, rest := ParseParams(open[close + 1..]);
      NoneRead(params);
      var rel, anchored := None, false;
      for i := 0 to |params|
        invariant FirstRel(params) == if rel.Some? then rel else FirstRel(params[i..])
        invariant anchored <==> Anchored(params[..i])
      {
        ReadStep(params, i);
        match params[i].name {
          case "rel" =>
            if rel == None {
              rel := params[i].value;
            }
          case "anchor" => anchored := true;
          case _ =>
        }
      }
      AllRead(params);
      if rel.Some? && !anchored {
        links := links + [Link(target, RelationTypes(rel.value))];
      }
    }
  }

  /** One step of the link loop. */
  lemma LinksStep(links: seq<Link>, rest: string)
    ensures var start, all := SkipWhile(rest, IsSeparator), links + Links(rest);
            if start == "" then all == links
            else if start[0] != '<' then
              var comma := Until(start, IsComma);
              all == if comma == |start| then links else links + Links(start[comma..])
            else
              var open := start[1..];
              var close := Until(open, IsClose);
              if close == |open| then all == links
              else
                var p := ParamsOf(open[close + 1..]);
                var found := LinkOf(Trim(open[..close]), p.params);
                && all == links + found + Links(p.rest)
                && (found == [] ==> all == links + Links(p.rest))
  {
    hide Until, Trim, ParamsOf, LinkOf;
    assert Links("") == [] && links + [] == links;
    var start := SkipWhile(rest, IsSeparator);
    if start != "" && start[0] != '<' {
      assert start[|start|..] == "";
    } else if start != "" && Until(start[1..], IsClose) < |start| - 1 {
      var close := Until(start[1..], IsClose);
      var p := ParamsOf(start[1..][close + 1..]);
      Associate(links, LinkOf(Trim(start[1..][..close]), p.params), Links(p.rest));
    }
  }

  /** The loop over the parameters of one link: its start, its step and its end. */
  lemma NoneRead(params: seq<Param>)
    ensures params[0..] == params && !Anchored(params[..0])
  {
  }

  lemma ReadStep(params: seq<Param>, i: nat)
    requires i < |params|
    ensures FirstRel(params[i..]) ==
            if params[i].name == "rel" && params[i].value.Some? then params[i].value
            else FirstRel(params[i + 1..])
    ensures Anchored(params[..i + 1]) <==> Anchored(params[..i]) || params[i].name == "anchor"
  {
    assert params[i..][1..] == params[i + 1..];
    assert params[..i + 1] == params[..i] + [params[i]];
    if Anchored(params[..i]) {
      var j :| 0 <= j < i && params[..i][j].name == "anchor";
      assert params[..i + 1][j].name == "anchor";
    }
    assert params[..i + 1][i] == params[i];
  }

  lemma AllRead(params: seq<Param>)
    ensures params[..|params|] == params && FirstRel(params[|params|..]) == None
  {
  }
}
