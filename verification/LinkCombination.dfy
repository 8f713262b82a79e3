// When two Link field lines may be joined by a comma (section 5.3 of RFC 9110):
// exactly when the first one is `Complete`. Nothing is assumed about either line,
// so the junk recovery of the parser is covered too.

module LinkCombination {
  import opened Basics
  import opened LinkHeader

  // ---------------------------------------------------------------- cursors over `s + t`

  lemma {:induction false} UntilAppend(s: string, t: string, p: char -> bool)
    requires t != "" && p(t[0])
    ensures Until(s + t, p) == Until(s, p)
    ensures Until(s, p) <= |s| && (s + t)[Until(s, p)..] == s[Until(s, p)..] + t
    ensures (s + t)[..Until(s, p)] == s[..Until(s, p)]
  {
    if s == "" {
      Append(s, t);
    } else {
      assert (s + t)[1..] == s[1..] + t;
      if !p(s[0]) {
        UntilAppend(s[1..], t, p);
      }
    }
  }

  lemma {:induction false} SkipAppend(s: string, t: string, p: char -> bool)
    requires t != "" && !p(t[0])
    ensures SkipWhile(s + t, p) == SkipWhile(s, p) + t
  {
    if s == "" {
      Append(s, t);
    } else if p(s[0]) {
      assert (s + t)[1..] == s[1..] + t;
      SkipAppend(s[1..], t, p);
    }
  }

  lemma {:induction false} SkipMore(s: string, t: string, p: char -> bool)
    ensures SkipWhile(s, p) == "" ==> SkipWhile(s + t, p) == SkipWhile(t, p)
    ensures SkipWhile(s, p) != "" ==> SkipWhile(s + t, p) == SkipWhile(s, p) + t
  {
    if s == "" {
      Append(s, t);
    } else if p(s[0]) {
      assert (s + t)[1..] == s[1..] + t;
      SkipMore(s[1..], t, p);
    }
  }

  lemma Tail(s: string, t: string)
    requires s != ""
    ensures s + t != "" && (s + t)[0] == s[0] && (s + t)[1..] == s[1..] + t
  {
  }

  // ---------------------------------------------------------------- sub-parsers over `s + t`

  lemma {:induction false} UnquoteAppend(s: string, t: string)
    requires Unquote(s).closed
    ensures Unquote(s + t) == Unquote(s).(rest := Unquote(s).rest + t)
    decreases |s|
  {
    Tail(s, t);
    if s[0] == '\\' {
      assert (s + t)[2..] == s[2..] + t && (s + t)[1] == s[1];
      UnquoteAppend(s[2..], t);
    } else if s[0] != '"' {
      UnquoteAppend(s[1..], t);
    }
  }

  lemma ValueAppend(s: string, t: string)
    requires t != "" && t[0] == ',' && ValueOf(s).closed
    ensures ValueOf(s + t) == ValueOf(s).(rest := ValueOf(s).rest + t)
  {
    hide Unquote, Until;
    if s == "" {
      UntilAppend(s, t, EndsToken);
    } else {
      Tail(s, t);
      if s[0] == '"' {
        UnquoteAppend(s[1..], t);
      } else {
        UntilAppend(s, t, EndsToken);
      }
    }
  }

  lemma ParamAppend(s: string, t: string)
    requires t != "" && t[0] == ',' && ParamOf(s).closed
    ensures ParamOf(s + t) == ParamOf(s).(rest := ParamOf(s).rest + t)
  {
    assert !IsBlank(t[0]) && EndsName(t[0]);
    hide Until, SkipWhile, Lower, ValueOf;
    SkipAppend(s, t, IsBlank);
    var start := SkipWhile(s, IsBlank);
    UntilAppend(start, t, EndsName);
    var end := Until(start, EndsName);
    SkipAppend(start[end..], t, IsBlank);
    var after := SkipWhile(start[end..], IsBlank);
    if after != "" {
      Tail(after, t);
      if after[0] == '=' {
        SkipAppend(after[1..], t, IsBlank);
        ValueAppend(SkipWhile(after[1..], IsBlank), t);
      }
    } else {
      Append(after, t);
    }
  }

  lemma {:induction false} ParamsAppend(s: string, t: string)
    requires t != "" && t[0] == ',' && ParamsOf(s).closed
    ensures ParamsOf(s + t) == ParamsOf(s).(rest := ParamsOf(s).rest + t)
    decreases |s|
  {
    assert !IsBlank(t[0]);
    hide *;
    SkipAppend(s, t, IsBlank);
    ParamsUnfold(s);
    ParamsUnfold(s + t);
    var start := SkipWhile(s, IsBlank);
    if start == "" || start[0] != ';' {
      if start == "" {
        Append(start, t);
      } else {
        Tail(start, t);
      }
      CommaAppend(start, t);
    } else {
      Tail(start, t);
      ParamAppend(start[1..], t);
      ParamsAppend(ParamOf(start[1..]).rest, t);
    }
  }

  lemma CommaAppend(s: string, t: string)
    requires t != "" && t[0] == ','
    ensures (s + t)[Until(s + t, IsComma)..] == s[Until(s, IsComma)..] + t
  {
    UntilAppend(s, t, IsComma);
  }

  // ---------------------------------------------------------------- links over `s + t`

  /** How `Links` and `Complete` read the head of a field value. */
  lemma LinksUnfold(s: string)
    ensures var start := SkipWhile(s, IsSeparator);
            if start == "" then Links(s) == [] && Complete(s)
            else if start[0] != '<' then
              var junk := start[Until(start, IsComma)..];
              && |junk| < |s|
              && Links(s) == Links(junk) && (Complete(s) <==> Complete(junk))
            else
              var open := start[1..];
              var close := Until(open, IsClose);
              if close == |open| then Links(s) == [] && !Complete(s)
              else
                var p := ParamsOf(open[close + 1..]);
                && |p.rest| < |s|
                && Links(s) == LinkOf(Trim(open[..close]), p.params) + Links(p.rest)
                && (Complete(s) <==> p.closed && Complete(p.rest))
  {
    hide Until, Trim, ParamsOf, LinkOf;
    var start := SkipWhile(s, IsSeparator);
    if start != "" && start[0] != '<' {
      assert Until(start, IsComma) > 0;
    }
  }

  /** The head of `s + t`, for `t` that starts with a comma. */
  lemma LinksAppend(s: string, t: string)
    requires t != "" && t[0] == ','
    requires Complete(s)
    ensures Links(s + t) == Links(s) + Links(t)
    decreases |s|
  {
    hide *;
    SkipMore(s, t, IsSeparator);
    LinksUnfold(s);
    LinksUnfold(s + t);
    var start := SkipWhile(s, IsSeparator);
    if start == "" {
      LinksUnfold(t);
      SameHead(s + t, t);
      Append(Links(s), Links(t));
    } else {
      Tail(start, t);
      if start[0] != '<' {
        CommaAppend(start, t);
        LinksAppend(start[Until(start, IsComma)..], t);
      } else {
        CloseAppend(start[1..], t);
        var close := Until(start[1..], IsClose);
        var p := ParamsOf(start[1..][close + 1..]);
        ParamsAppend(start[1..][close + 1..], t);
        LinksAppend(p.rest, t);
        Associate(LinkOf(Trim(start[1..][..close]), p.params), Links(p.rest), Links(t));
      }
    }
  }

  lemma SameHead(s: string, t: string)
    requires SkipWhile(s, IsSeparator) == SkipWhile(t, IsSeparator)
    ensures Links(s) == Links(t)
  {
    hide SkipWhile, Until, Trim, ParamsOf, LinkOf;
  }

  lemma {:induction false} CloseAppend(s: string, t: string)
    requires Until(s, IsClose) < |s|
    ensures Until(s + t, IsClose) == Until(s, IsClose)
    ensures (s + t)[..Until(s, IsClose)] == s[..Until(s, IsClose)]
    ensures (s + t)[Until(s, IsClose) + 1..] == s[Until(s, IsClose) + 1..] + t
  {
    Tail(s, t);
    if !IsClose(s[0]) {
      CloseAppend(s[1..], t);
    }
  }

  // ---------------------------------------------------------------- unfinished lines

  /** A second field line that tells a finished first line from an unfinished one. */
  const WITNESS := "<b>;rel=y"

  const WITNESS_LINK := Link("b", ["y"])

  predicate IsPlain(s: string) {
    forall i :: 0 <= i < |s| ==> s[i] != '"' && s[i] != '\\'
  }

  lemma {:induction false} UnquoteOpen(s: string, u: string)
    requires IsPlain(u) && !Unquote(s).closed
    ensures !Unquote(s + u).closed && Unquote(s + u).rest == ""
    decreases |s| + |u|
  {
    if s == "" {
      Append(s, u);
      if u != "" {
        UnquoteOpen("", u[1..]);
        Append("", u[1..]);
      }
    } else {
      Tail(s, u);
      if s[0] != '\\' {
        UnquoteOpen(s[1..], u);
      } else if |s| > 1 {
        assert (s + u)[2..] == s[2..] + u;
        UnquoteOpen(s[2..], u);
      } else if u != "" {
        assert (s + u)[2..] == u[1..];
        UnquoteOpen("", u[1..]);
        Append("", u[1..]);
      }
    }
  }

  lemma ValueOpen(s: string, u: string)
    requires IsPlain(u) && !ValueOf(s).closed
    ensures !ValueOf(s + u).closed && ValueOf(s + u).rest == ""
  {
    hide Unquote, Until;
    Tail(s, u);
    UnquoteOpen(s[1..], u);
  }

  /** Names and presence of values: all that decides whether a link is kept. */
  predicate SameShape(a: seq<Param>, b: seq<Param>) {
    |a| == |b| && forall i :: 0 <= i < |a| ==> a[i].name == b[i].name && (a[i].value == None <==> b[i].value == None)
  }

  lemma ParamOpen(s: string, u: string)
    requires u != "" && u[0] == ',' && IsPlain(u) && !ParamOf(s).closed
    ensures !ParamOf(s + u).closed && ParamOf(s + u).rest == "" && ParamOf(s).rest == ""
    ensures SameShape(ParamOf(s + u).params, ParamOf(s).params)
  {
    assert !IsBlank(u[0]) && EndsName(u[0]);
    hide Until, SkipWhile, Lower, ValueOf;
    SkipAppend(s, u, IsBlank);
    var start := SkipWhile(s, IsBlank);
    UntilAppend(start, u, EndsName);
    var end := Until(start, EndsName);
    SkipAppend(start[end..], u, IsBlank);
    var after := SkipWhile(start[end..], IsBlank);
    Tail(after, u);
    SkipAppend(after[1..], u, IsBlank);
    ValueOpen(SkipWhile(after[1..], IsBlank), u);
    Append(SkipWhile(after[1..], IsBlank), "");
    ValueOpen(SkipWhile(after[1..], IsBlank), "");
  }

  lemma {:induction false} ParamsOpen(s: string, u: string)
    requires u != "" && u[0] == ',' && IsPlain(u) && !ParamsOf(s).closed
    ensures ParamsOf(s + u).rest == "" && !ParamsOf(s + u).closed && ParamsOf(s).rest == ""
    ensures SameShape(ParamsOf(s + u).params, ParamsOf(s).params)
    decreases |s|
  {
    assert !IsBlank(u[0]) && ParamsOf("") == Params([], "", true);
    hide ParamsOf, ParamOf, SkipWhile, Until;
    SkipAppend(s, u, IsBlank);
    ParamsUnfold(s);
    ParamsUnfold(s + u);
    var start := SkipWhile(s, IsBlank);
    Tail(start, u);
    var first := ParamOf(start[1..]);
    if first.closed {
      ParamAppend(start[1..], u);
      ParamsOpen(first.rest, u);
      ShapeAppend(first.params, ParamsOf(first.rest + u).params, ParamsOf(first.rest).params);
    } else {
      ParamOpen(start[1..], u);
      Append(first.params, []);
      Append(ParamOf(start[1..] + u).params, []);
    }
  }

  lemma ShapeAppend(a: seq<Param>, b: seq<Param>, c: seq<Param>)
    requires SameShape(b, c)
    ensures SameShape(a + b, a + c)
  {
  }

  lemma {:induction false} ShapeDecides(target: string, a: seq<Param>, b: seq<Param>)
    requires SameShape(a, b)
    ensures |LinkOf(target, a)| == |LinkOf(target, b)|
  {
    FirstRelShape(a, b);
    if Anchored(a) {
      var i :| 0 <= i < |a| && a[i].name == "anchor";
      assert b[i].name == "anchor";
    }
    if Anchored(b) {
      var i :| 0 <= i < |b| && b[i].name == "anchor";
      assert a[i].name == "anchor";
    }
  }

  lemma {:induction false} FirstRelShape(a: seq<Param>, b: seq<Param>)
    requires SameShape(a, b)
    ensures FirstRel(a) == None <==> FirstRel(b) == None
  {
    if a != [] {
      FirstRelShape(a[1..], b[1..]);
    }
  }

  lemma WitnessAlone()
    ensures Links(WITNESS) == [WITNESS_LINK]
    ensures Links("," + WITNESS) == [WITNESS_LINK]
  {
    assert Links("") == [];
    WitnessParams();
    BareB();
    WitnessHead();
    hide *;
    LinksUnfold(WITNESS);
    Append([WITNESS_LINK], Links(""));
    LeadingComma(WITNESS);
  }

  lemma WitnessHead()
    ensures SkipWhile(WITNESS, IsSeparator) == WITNESS && WITNESS != "" && WITNESS[0] == '<'
    ensures Until(WITNESS[1..], IsClose) == 1 < |WITNESS[1..]|
    ensures WITNESS[1..][..1] == "b" && WITNESS[1..][2..] == ";rel=y"
  {
    assert WITNESS[1..] == "b>;rel=y";
    UntilHit("b>;rel=y", 1, IsClose);
  }

  lemma BareB()
    ensures Trim("b") == "b"
  {
  }

  lemma WitnessParams()
    ensures ParamsOf(";rel=y") == Params([Param("rel", Some("y"))], "", true)
    ensures LinkOf("b", [Param("rel", Some("y"))]) == [WITNESS_LINK]
  {
    WitnessNamed("b");
    WitnessParam();
    NoParams();
    assert SkipWhile(";rel=y", IsBlank) == ";rel=y" by { hide ParamsOf; }
    hide *;
    assert ";rel=y"[1..] == "rel=y";
    ParamsUnfold(";rel=y");
    Append([Param("rel", Some("y"))], []);
  }

  lemma NoParams()
    ensures ParamsOf("") == Params([], "", true)
  {
  }

  lemma WitnessTypes()
    ensures RelationTypes("y") == ["y"]
  {
    UntilHit("y", 1, IsAsciiWhitespace);
    assert "y"[..1] == "y" && "y"[1..] == "" && RelationTypes("") == [];
    assert SkipWhile("y", IsAsciiWhitespace) == "y";
    assert Lower("y") == "y";
  }

  lemma WitnessParam()
    ensures ParamOf("rel=y") == Params([Param("rel", Some("y"))], "", true)
  {
    UntilHit("rel=y", 3, EndsName);
    UntilHit("y", 1, EndsToken);
    assert "rel=y"[..3] == "rel" && "rel=y"[3..] == "=y" && "=y"[1..] == "y" && "y"[1..] == "" && "y"[..1] == "y";
    assert SkipWhile("rel=y", IsBlank) == "rel=y" && SkipWhile("=y", IsBlank) == "=y" && SkipWhile("y", IsBlank) == "y";
    assert Lower("rel") == "rel";
    hide Until, SkipWhile, Lower;
    assert ValueOf("y") == Value("y", "", true);
  }

  /** An unclosed angle bracket swallows the witness into its own target. */
  lemma WitnessSwallowed(s: string, open: string)
    requires SkipWhile(s, IsSeparator) == "<" + open + ("," + WITNESS)
    requires Until(open, IsClose) == |open|
    ensures Links(s) == [Link(Trim(open + ",<b"), ["y"])]
    ensures Trim(open + ",<b") != "b"
  {
    var start := "<" + open + ("," + WITNESS);
    assert start[1..] == open + ",<b>;rel=y";
    UntilMissed(open, IsClose);
    UntilHit(open + ",<b>;rel=y", |open| + 3, IsClose);
    assert (open + ",<b>;rel=y")[..|open| + 3] == open + ",<b";
    assert (open + ",<b>;rel=y")[|open| + 4..] == ";rel=y";
    WitnessParams();
    LongTarget(open);
    assert Links("") == [];
    hide *;
    LinksUnfold(s);
    WitnessNamed(Trim(open + ",<b"));
    Append([Link(Trim(open + ",<b"), ["y"])], Links(""));
  }

  lemma WitnessNamed(target: string)
    ensures LinkOf(target, [Param("rel", Some("y"))]) == [Link(target, ["y"])]
  {
    WitnessTypes();
    hide RelationTypes;
  }

  lemma LongTarget(open: string)
    ensures Trim(open + ",<b") != "b"
  {
    SkipMore(open, ",<b", IsWhitespace);
    assert SkipWhile(",<b", IsWhitespace) == ",<b";
    var kept := SkipWhile(open + ",<b", IsWhitespace);
    assert |kept| >= 3 && kept[|kept| - 1] == 'b' by {
      hide SkipWhile;
    }
    hide SkipWhile;
    assert DropTrailing(kept) == kept;
  }

  predicate IsWitness(u: string) {
    u == "," + WITNESS
  }

  lemma WitnessFacts(u: string)
    requires IsWitness(u)
    ensures u != "" && u[0] == ',' && IsPlain(u)
  {
  }

  lemma WitnessAfter(s: string, start: string, u: string)
    requires IsWitness(u) && start != "" && start[0] == '<' && Until(start[1..], IsClose) == |start[1..]|
    requires SkipWhile(s, IsSeparator) == start + u
    ensures Links(s) != [WITNESS_LINK]
  {
    assert start == "<" + start[1..];
    WitnessSwallowed(s, start[1..]);
  }

  /** An unfinished line does not combine with the witness. */
  lemma Unfinished(s: string, u: string)
    requires IsWitness(u) && !Complete(s)
    ensures Links(s + u) != Links(s) + [WITNESS_LINK]
    decreases |s|
  {
    hide *;
    WitnessFacts(u);
    SkipMore(s, u, IsSeparator);
    LinksUnfold(s);
    LinksUnfold(s + u);
    var start := SkipWhile(s, IsSeparator);
    Tail(start, u);
    if start[0] != '<' {
      CommaAppend(start, u);
      Unfinished(start[Until(start, IsComma)..], u);
    } else if Until(start[1..], IsClose) == |start[1..]| {
      WitnessAfter(s + u, start, u);
      Append([], [WITNESS_LINK]);
    } else {
      var open := start[1..];
      var close := Until(open, IsClose);
      var p := ParamsOf(open[close + 1..]);
      CloseAppend(open, u);
      if p.closed {
        ParamsAppend(open[close + 1..], u);
        Unfinished(p.rest, u);
        StillUnfinished(LinkOf(Trim(open[..close]), p.params), Links(p.rest), Links(p.rest + u));
      } else {
        UnfinishedParams(open[close + 1..], Trim(open[..close]), u);
        assert |Links(s + u)| == |Links(s)|;
      }
    }
  }

  lemma UnfinishedParams(s: string, target: string, u: string)
    requires IsWitness(u) && !ParamsOf(s).closed
    ensures ParamsOf(s).rest == ParamsOf(s + u).rest == "" && Links("") == []
    ensures |LinkOf(target, ParamsOf(s).params)| == |LinkOf(target, ParamsOf(s + u).params)|
  {
    assert Links("") == [];
    hide *;
    WitnessFacts(u);
    ParamsOpen(s, u);
    ShapeDecides(target, ParamsOf(s + u).params, ParamsOf(s).params);
  }

  lemma StillUnfinished(found: seq<Link>, links: seq<Link>, joined: seq<Link>)
    requires joined != links + [WITNESS_LINK]
    ensures found + joined != found + links + [WITNESS_LINK]
  {
    Associate(found, links, [WITNESS_LINK]);
    if found + joined == found + links + [WITNESS_LINK] {
      CancelPrefix(found, joined, links + [WITNESS_LINK]);
    }
  }

  lemma CancelPrefix<T>(a: seq<T>, b: seq<T>, c: seq<T>)
    requires a + b == a + c
    ensures b == c
  {
    assert (a + b)[|a|..] == b && (a + c)[|a|..] == c;
  }

  // ---------------------------------------------------------------- main result

  /** A field line may be joined with every other one exactly when it is complete. */
  lemma CombinationExact(s: string)
    ensures Complete(s) <==> forall t :: Links(s + ("," + t)) == Links(s) + Links(t)
  {
    if Complete(s) {
      forall t ensures Links(s + ("," + t)) == Links(s) + Links(t) {
        LinksAppend(s, "," + t);
        LeadingComma(t);
      }
    } else {
      Unfinished(s, "," + WITNESS);
      WitnessAlone();
    }
  }

  lemma LeadingComma(t: string)
    ensures Links("," + t) == Links(t)
    ensures Complete("," + t) == Complete(t)
  {
    CommaIsSkipped();
    SkipMore(",", t, IsSeparator);
    SameHead("," + t, t);
    SameComplete("," + t, t);
  }

  lemma CommaIsSkipped()
    ensures SkipWhile(",", IsSeparator) == ""
  {
    assert ","[1..] == "";
  }

  lemma CompleteAppend(s: string, t: string)
    requires Complete(s)
    ensures Complete(s + ("," + t)) <==> Complete(t)
    decreases |s|
  {
    var u := "," + t;
    hide *;
    SkipMore(s, u, IsSeparator);
    LeadingComma(t);
    LinksUnfold(s);
    LinksUnfold(s + u);
    var start := SkipWhile(s, IsSeparator);
    if start == "" {
      SameComplete(s + u, u);
    } else {
      Tail(start, u);
      if start[0] != '<' {
        CommaAppend(start, u);
        CompleteAppend(start[Until(start, IsComma)..], t);
      } else {
        CloseAppend(start[1..], u);
        ParamsAppend(start[1..][Until(start[1..], IsClose) + 1..], u);
        CompleteAppend(ParamsOf(start[1..][Until(start[1..], IsClose) + 1..]).rest, t);
      }
    }
  }

  lemma SameComplete(s: string, t: string)
    requires SkipWhile(s, IsSeparator) == SkipWhile(t, IsSeparator)
    ensures Complete(s) == Complete(t)
  {
    hide SkipWhile, Until, ParamsOf;
  }

  /** Junk without a comma, before a comma, is skipped. */
  lemma {:induction false} JunkSkipped(junk: string, t: string)
    requires Until(junk, IsComma) == |junk|
    requires SkipWhile(junk, IsSeparator) == "" || SkipWhile(junk, IsSeparator)[0] != '<'
    ensures Links(junk + ("," + t)) == Links(t)
  {
    JunkIsComplete(junk);
    LinksAppend(junk, "," + t);
    LeadingComma(t);
    Append(Links(junk), Links("," + t));
  }

  lemma JunkIsComplete(junk: string)
    requires Until(junk, IsComma) == |junk|
    requires SkipWhile(junk, IsSeparator) == "" || SkipWhile(junk, IsSeparator)[0] != '<'
    ensures Complete(junk) && Links(junk) == []
  {
    var start := SkipWhile(junk, IsSeparator);
    SkipSuffix(junk, IsSeparator);
    UntilMissed(junk, IsComma);
    assert forall j :: 0 <= j < |start| ==> start[j] == junk[|junk| - |start| + j];
    UntilHit(start, |start|, IsComma);
    assert start[|start|..] == "" && Complete("") && Links("") == [];
    hide *;
    LinksUnfold(junk);
  }

  lemma {:induction false} SkipSuffix(s: string, p: char -> bool)
    ensures s[|s| - |SkipWhile(s, p)|..] == SkipWhile(s, p)
  {
    if s != "" && p(s[0]) {
      SkipSuffix(s[1..], p);
    }
  }

  // ---------------------------------------------------------------- cursors only move forward

  predicate IsSuffix(r: string, s: string) {
    |r| <= |s| && s[|s| - |r|..] == r
  }

  lemma SuffixOfSuffix(q: string, r: string, s: string)
    requires IsSuffix(q, r) && IsSuffix(r, s)
    ensures IsSuffix(q, s)
  {
    assert s[|s| - |r|..][|r| - |q|..] == s[|s| - |q|..];
  }

  lemma DropIsSuffix(s: string, i: nat)
    requires i <= |s|
    ensures IsSuffix(s[i..], s)
  {
  }

  lemma {:induction false} UnquoteSuffix(s: string)
    ensures IsSuffix(Unquote(s).rest, s)
    decreases |s|
  {
    if s != "" && s[0] == '\\' && |s| > 1 {
      UnquoteSuffix(s[2..]);
      DropIsSuffix(s, 2);
      SuffixOfSuffix(Unquote(s[2..]).rest, s[2..], s);
    } else if s != "" && s[0] != '"' && |s| > 1 {
      UnquoteSuffix(s[1..]);
      DropIsSuffix(s, 1);
      SuffixOfSuffix(Unquote(s[1..]).rest, s[1..], s);
    }
  }

  lemma ValueSuffix(s: string)
    ensures IsSuffix(ValueOf(s).rest, s)
  {
    if s != "" && s[0] == '"' {
      UnquoteSuffix(s[1..]);
      DropIsSuffix(s, 1);
      hide Unquote, IsSuffix;
      SuffixOfSuffix(Unquote(s[1..]).rest, s[1..], s);
    } else {
      hide Until;
      DropIsSuffix(s, Until(s, EndsToken));
    }
  }

  lemma SkipIsSuffix(s: string, p: char -> bool)
    ensures IsSuffix(SkipWhile(s, p), s)
  {
    SkipSuffix(s, p);
    hide SkipWhile;
  }

  lemma ParamSuffix(s: string)
    ensures IsSuffix(ParamOf(s).rest, s)
  {
    hide SkipWhile, Until, ValueOf, Lower, IsSuffix;
    var start := SkipWhile(s, IsBlank);
    SkipIsSuffix(s, IsBlank);
    var tail := start[Until(start, EndsName)..];
    DropIsSuffix(start, Until(start, EndsName));
    SuffixOfSuffix(tail, start, s);
    var after := SkipWhile(tail, IsBlank);
    SkipIsSuffix(tail, IsBlank);
    SuffixOfSuffix(after, tail, s);
    if after != "" && after[0] == '=' {
      DropIsSuffix(after, 1);
      SuffixOfSuffix(after[1..], after, s);
      var value := SkipWhile(after[1..], IsBlank);
      SkipIsSuffix(after[1..], IsBlank);
      SuffixOfSuffix(value, after[1..], s);
      ValueSuffix(value);
      SuffixOfSuffix(ValueOf(value).rest, value, s);
    }
  }

  /** The rest that the parameter parser returns is a suffix of its input. */
  lemma {:induction false} ParamsSuffix(s: string)
    ensures IsSuffix(ParamsOf(s).rest, s)
    decreases |s|
  {
    hide *;
    ParamsUnfold(s);
    var start := SkipWhile(s, IsBlank);
    SkipIsSuffix(s, IsBlank);
    if start == "" || start[0] != ';' {
      DropIsSuffix(start, Until(start, IsComma));
      SuffixOfSuffix(start[Until(start, IsComma)..], start, s);
    } else {
      DropIsSuffix(start, 1);
      SuffixOfSuffix(start[1..], start, s);
      ParamSuffix(start[1..]);
      var rest := ParamOf(start[1..]).rest;
      SuffixOfSuffix(rest, start[1..], s);
      ParamsSuffix(rest);
      SuffixOfSuffix(ParamsOf(rest).rest, rest, s);
    }
  }

  predicate AllComplete(lines: seq<string>) {
    forall i :: 0 <= i < |lines| ==> Complete(lines[i])
  }

  /** Separate complete field lines mean the same as one combined line. */
  lemma {:induction false} CombinedTargets(lines: seq<string>, rel: string)
    requires lines != [] && AllComplete(lines[..|lines| - 1])
    ensures TargetsWithRel([Join(lines, ",")], rel) == TargetsWithRel(lines, rel)
  {
    hide Links, Complete;
    if |lines| > 1 {
      var rest := lines[1..];
      assert lines[0] == lines[..|lines| - 1][0];
      assert rest[..|rest| - 1] == lines[..|lines| - 1][1..];
      CombinedTargets(rest, rel);
      OneLine(Join(rest, ","), rel);
      OneLine(Join(lines, ","), rel);
      Associate(lines[0], ",", Join(rest, ","));
      CombinationExact(lines[0]);
      MatchingAppend(Links(lines[0]), Links(Join(rest, ",")), rel);
    } else {
      assert lines == [lines[0]];
    }
  }

  lemma OneLine(s: string, rel: string)
    ensures TargetsWithRel([s], rel) == Matching(Links(s), rel)
  {
    hide Links, Matching;
    assert [s][1..] == [];
    Append(Matching(Links(s), rel), []);
  }

  lemma {:induction false} MatchingAppend(a: seq<Link>, b: seq<Link>, rel: string)
    ensures Matching(a + b, rel) == Matching(a, rel) + Matching(b, rel)
  {
    if a == [] {
      Append(a, b);
    } else {
      assert (a + b)[1..] == a[1..] + b;
      MatchingAppend(a[1..], b, rel);
      Associate(if rel in a[0].rel then [a[0].target] else [], Matching(a[1..], rel), Matching(b, rel));
    }
  }
}
