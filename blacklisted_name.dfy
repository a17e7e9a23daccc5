/**
 * The `blacklisted_name` lint of clippy: a late lint pass that holds a list of
 * forbidden placeholder names and, for every pattern the compiler's HIR walk
 * visits, reports a warning when the pattern binds one of those names.
 *
 * The compiler's types are replaced by small datatypes: a pattern is its kind
 * (a name binding, a wildcard, or any other shape) and its span; a diagnostic
 * is the lint it is reported under, the span and the message text. The single
 * `span_lint` call of `check_pat` becomes the `Some` result of `CheckPat`.
 */
module BlacklistedName {
  import opened Wrappers

  // ---------------------------------------------------------------------------
  // Lint metadata (`declare_lint!`)
  // ---------------------------------------------------------------------------

  /** The levels rustc lets a lint be declared at. */
  datatype Level = Allow | Warn | Deny | Forbid

  /** A declared lint: its identifier, its default level and its description. */
  datatype Lint = Lint(name: string, defaultLevel: Level, desc: string)

  /** The one lint this pass reports, declared at level `Warn`. */
  const BLACKLISTED_NAME: Lint := Lint("BLACKLISTED_NAME", Warn, "usage of a blacklisted/placeholder name")

  // ---------------------------------------------------------------------------
  // Patterns, spans and diagnostics
  // ---------------------------------------------------------------------------

  /** A source region, as byte offsets; the lint only copies it. */
  datatype Span = Span(lo: nat, hi: nat)

  /**
   * The kind of a pattern. Only a name binding matters to the lint; every
   * other HIR pattern kind (wildcard, literal, tuple, struct, ...) is folded
   * into `Wild` or `Other`. The sub-pattern of `name @ pat` is visited by the
   * walk on its own and is not carried here.
   */
  datatype PatKind =
    | Binding(ident: string)
    | Wild
    | Other

  /** A pattern occurrence as the walk hands it to the lint. */
  datatype Pat = Pat(node: PatKind, span: Span)

  /** One finding handed to the diagnostic sink. */
  datatype Diagnostic = Diagnostic(lint: Lint, span: Span, message: string)

  /** The lint pass: the configured list of forbidden names. */
  datatype BlackListedName = BlackListedName(blacklist: seq<string>)

  /**
   * `BlackListedName::new`: keeps the list exactly as given, in order, with
   * duplicates and empty strings; nothing is validated.
   */
  function New(blacklist: seq<string>): (r: BlackListedName)
    ensures r.blacklist == blacklist
  {
    BlackListedName(blacklist)
  }

  // ---------------------------------------------------------------------------
  // The message
  // ---------------------------------------------------------------------------

  const MessagePrefix: string := "use of a blacklisted/placeholder name `"
  const MessageSuffix: string := "`"

  /**
   * The text `format!` builds for an offending name: the fixed prefix, the
   * name itself, and a closing backtick.
   */
  function Message(name: string): (m: string)
    ensures |m| == |MessagePrefix| + |name| + |MessageSuffix|
    ensures m[..|MessagePrefix|] == MessagePrefix
    ensures m[|MessagePrefix|..|MessagePrefix| + |name|] == name
    ensures m[|m| - 1] == '`'
  {
    MessagePrefix + name + MessageSuffix
  }

  /** Recovers the offending name from a message, if it has the lint's shape. */
  function MessageName(m: string): (r: Option<string>)
    ensures r.Some? ==> Message(r.value) == m
  {
    if |m| >= |MessagePrefix| + |MessageSuffix|
       && m[..|MessagePrefix|] == MessagePrefix
       && m[|m| - |MessageSuffix|..] == MessageSuffix
    then
      var name := m[|MessagePrefix|..|m| - |MessageSuffix|];
      assert m == MessagePrefix + name + MessageSuffix;
      Some(name)
    else
      None
  }

  /** The name can be read back from every message the lint produces. */
  lemma MessageRoundTrip(name: string)
    ensures MessageName(Message(name)) == Some(name)
  {
    var m := Message(name);
    assert m[|m| - |MessageSuffix|..] == MessageSuffix;
    assert m[|MessagePrefix|..|m| - |MessageSuffix|] == name;
  }

  /** Different names give different messages. */
  lemma MessageInjective(a: string, b: string)
    requires Message(a) == Message(b)
    ensures a == b
  {
    MessageRoundTrip(a);
    MessageRoundTrip(b);
  }

  // ---------------------------------------------------------------------------
  // The check
  // ---------------------------------------------------------------------------

  /**
   * `blacklist.iter().any(|s| s == name)`: walks the entries front to back and
   * stops at the first one equal to `name` (exact, case-sensitive text).
   */
  function AnyMatch(blacklist: seq<string>, name: string): (r: bool)
    ensures r <==> name in blacklist
    ensures r <==> exists i :: 0 <= i < |blacklist| && blacklist[i] == name
    decreases |blacklist|
  {
    |blacklist| > 0 && (blacklist[0] == name || AnyMatch(blacklist[1..], name))
  }

  /**
   * `check_pat`: a pattern yields a diagnostic exactly when it is a name
   * binding whose text is an entry of the list; the diagnostic is reported
   * under `BLACKLISTED_NAME`, at the pattern's span, with the name in the
   * message. `None` stands for "`span_lint` is not called".
   */
  function CheckPat(rule: BlackListedName, pat: Pat): (r: Option<Diagnostic>)
    ensures r.Some? <==> pat.node.Binding? && pat.node.ident in rule.blacklist
    ensures r.Some? ==> r.value.lint == BLACKLISTED_NAME && r.value.lint.defaultLevel == Warn
    ensures r.Some? ==> r.value.span == pat.span
    ensures r.Some? ==> r.value.message == Message(pat.node.ident)
    ensures r.Some? ==> MessageName(r.value.message) == Some(pat.node.ident)
  {
    match pat.node
    case Binding(ident) =>
      if AnyMatch(rule.blacklist, ident) then
        MessageRoundTrip(ident);
        Some(Diagnostic(BLACKLISTED_NAME, pat.span, Message(ident)))
      else
        None
    case _ => None
  }

  /** A pattern that binds no name never produces a diagnostic. */
  lemma NonBindingNeverFires(rule: BlackListedName, pat: Pat)
    requires !pat.node.Binding?
    ensures CheckPat(rule, pat) == None
  {
  }

  /** With an empty list no pattern ever produces a diagnostic. */
  lemma EmptyBlacklistNeverFires(pat: Pat)
    ensures CheckPat(New([]), pat) == None
  {
  }

  /** The diagnostic, when there is one, is fully determined by the pattern. */
  lemma DiagnosticContent(rule: BlackListedName, name: string, span: Span)
    requires name in rule.blacklist
    ensures CheckPat(rule, Pat(Binding(name), span))
         == Some(Diagnostic(BLACKLISTED_NAME, span, Message(name)))
  {
  }

  /**
   * Only which names the list holds matters: two lists with the same entries,
   * whatever their order and however often each occurs, decide every pattern
   * alike.
   */
  lemma SameEntriesSameOutcome(b1: seq<string>, b2: seq<string>, pat: Pat)
    requires forall s :: s in b1 <==> s in b2
    ensures CheckPat(New(b1), pat) == CheckPat(New(b2), pat)
  {
    match pat.node
    case Binding(ident) =>
      assert ident in b1 <==> ident in b2;
    case _ =>
  }

  /** Reordering the list does not change any outcome. */
  lemma PermutationSameOutcome(b1: seq<string>, b2: seq<string>, pat: Pat)
    requires multiset(b1) == multiset(b2)
    ensures CheckPat(New(b1), pat) == CheckPat(New(b2), pat)
  {
    forall s ensures s in b1 <==> s in b2 {
      assert s in b1 <==> s in multiset(b1);
      assert s in b2 <==> s in multiset(b2);
    }
    SameEntriesSameOutcome(b1, b2, pat);
  }

  /** Repeating an entry that is already listed does not change any outcome. */
  lemma DuplicateEntrySameOutcome(b: seq<string>, s: string, pat: Pat)
    requires s in b
    ensures CheckPat(New(b + [s]), pat) == CheckPat(New(b), pat)
  {
    SameEntriesSameOutcome(b + [s], b, pat);
  }

  // ---------------------------------------------------------------------------
  // A lint run: the walk calls `check_pat` once per visited pattern
  // ---------------------------------------------------------------------------

  /** What one `check_pat` call hands to the diagnostic sink. */
  function Emitted(d: Option<Diagnostic>): (r: seq<Diagnostic>)
    ensures |r| <= 1
    ensures d.Some? <==> |r| == 1
    ensures d.Some? ==> r[0] == d.value
  {
    match d
    case Some(x) => [x]
    case None => []
  }

  /**
   * The diagnostics a walk that visits `pats` in order collects: each call
   * contributes on its own, with no memory of earlier calls and no
   * de-duplication. Every diagnostic stems from a visited pattern that binds
   * a listed name.
   */
  function RunPass(rule: BlackListedName, pats: seq<Pat>): (r: seq<Diagnostic>)
    ensures |r| <= |pats|
    ensures forall d :: d in r ==>
              d.lint == BLACKLISTED_NAME &&
              exists p :: p in pats && p.node.Binding? && p.node.ident in rule.blacklist &&
                          d.span == p.span && d.message == Message(p.node.ident)
    decreases |pats|
  {
    if pats == [] then []
    else Emitted(CheckPat(rule, pats[0])) + RunPass(rule, pats[1..])
  }

  /** A run over two stretches of patterns is the two runs one after the other. */
  lemma {:induction false} RunPassAppend(rule: BlackListedName, ps: seq<Pat>, qs: seq<Pat>)
    ensures RunPass(rule, ps + qs) == RunPass(rule, ps) + RunPass(rule, qs)
    decreases |ps|
  {
    if ps == [] {
      assert ps + qs == qs;
    } else {
      assert (ps + qs)[1..] == ps[1..] + qs;
      RunPassAppend(rule, ps[1..], qs);
    }
  }

  /**
   * The run, cut at any visited pattern: the diagnostics before it, then
   * exactly what its own call emits (at most one), then the diagnostics after.
   */
  lemma RunPassSplit(rule: BlackListedName, pats: seq<Pat>, i: nat)
    requires i < |pats|
    ensures RunPass(rule, pats)
         == RunPass(rule, pats[..i]) + Emitted(CheckPat(rule, pats[i])) + RunPass(rule, pats[i + 1..])
  {
    assert pats == pats[..i] + ([pats[i]] + pats[i + 1..]);
    RunPassAppend(rule, pats[..i], [pats[i]] + pats[i + 1..]);
    RunPassAppend(rule, [pats[i]], pats[i + 1..]);
    assert [pats[i]][1..] == [];
  }

  /** Every visited pattern that binds a listed name is reported. */
  lemma {:induction false} RunPassComplete(rule: BlackListedName, pats: seq<Pat>, p: Pat)
    requires p in pats && p.node.Binding? && p.node.ident in rule.blacklist
    ensures Diagnostic(BLACKLISTED_NAME, p.span, Message(p.node.ident)) in RunPass(rule, pats)
    decreases |pats|
  {
    if pats[0] == p {
      DiagnosticContent(rule, p.node.ident, p.span);
    } else {
      RunPassComplete(rule, pats[1..], p);
    }
  }

  /** A single call reports at most one diagnostic, however often the name is listed. */
  lemma AtMostOnePerCall(rule: BlackListedName, pat: Pat)
    ensures |RunPass(rule, [pat])| <= 1
    ensures |RunPass(rule, [pat])| == 1 <==> pat.node.Binding? && pat.node.ident in rule.blacklist
  {
    assert [pat][1..] == [];
  }

  /**
   * Visiting the same pattern twice reports it twice, identically: the second
   * call neither remembers nor suppresses the first.
   */
  lemma RepeatedCallSameResult(rule: BlackListedName, pat: Pat)
    ensures RunPass(rule, [pat, pat]) == RunPass(rule, [pat]) + RunPass(rule, [pat])
  {
    RunPassAppend(rule, [pat], [pat]);
    assert [pat] + [pat] == [pat, pat];
  }

  // ---------------------------------------------------------------------------
  // Worked cases
  // ---------------------------------------------------------------------------

  /** A listed name is reported once, and the message names it. */
  lemma ListedNameReported()
    ensures RunPass(New(["foo", "bar"]), [Pat(Binding("foo"), Span(4, 7))])
         == [Diagnostic(BLACKLISTED_NAME, Span(4, 7), "use of a blacklisted/placeholder name `foo`")]
  {
    var p := Pat(Binding("foo"), Span(4, 7));
    var rule := New(["foo", "bar"]);
    assert "foo" in rule.blacklist;
    assert Message("foo") == "use of a blacklisted/placeholder name `foo`";
    DiagnosticContent(rule, "foo", Span(4, 7));
    assert [p][1..] == [];
    assert RunPass(rule, [p]) == Emitted(CheckPat(rule, p)) + RunPass(rule, []);
  }

  /** A name that is not listed is not reported. */
  lemma UnlistedNameNotReported()
    ensures CheckPat(New(["foo", "bar"]), Pat(Binding("baz"), Span(4, 7))) == None
  {
    assert "baz" != "foo" && "baz" != "bar";
  }

  /** Matching is case-sensitive: `foo` is not `Foo`. */
  lemma CaseSensitiveMatch()
    ensures CheckPat(New(["Foo"]), Pat(Binding("foo"), Span(4, 7))) == None
  {
    assert "foo" != "Foo";
  }

  /** A name listed twice is still reported only once per occurrence. */
  lemma DuplicateListedOnce()
    ensures |RunPass(New(["x", "x"]), [Pat(Binding("x"), Span(4, 5))])| == 1
  {
    AtMostOnePerCall(New(["x", "x"]), Pat(Binding("x"), Span(4, 5)));
  }
}
