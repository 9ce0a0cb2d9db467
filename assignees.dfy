/**
 * The assignee part of the Jira search. The code expects the "Usernames"
 * setting to list quoted usernames, one per line and separated by `,`
 * followed by a line break: it splits there, trims each entry and drops its
 * first and last character (the quotes). The setting's own description
 * asks for a plain comma-separated list instead, which the code does not
 * parse into usernames: such a list, written on one line, is a single entry
 * (`SingleEntry`), and a bare username loses its first and last letter
 * (`BareUsername`). The usernames
 * become `assignee=` terms joined with ` OR `, and the query keeps only
 * issues in an open status, newest first.
 */
module Assignees {
  import opened Strings

  /** The separator between the entries of the setting. */
  const EntrySeparator := ",\n"

  /** `s.trim().slice(1, -1)`: one entry without its surrounding white space and quotes. */
  function Unquote(entry: string): string
  {
    Slice(Trim(entry), 1, -1)
  }

  /** `.map((s) => s.trim().slice(1, -1))` */
  function UnquoteAll(entries: seq<string>): (r: seq<string>)
    ensures |r| == |entries|
    ensures forall i :: 0 <= i < |entries| ==> r[i] == Unquote(entries[i])
  {
    seq(|entries|, i requires 0 <= i < |entries| => Unquote(entries[i]))
  }

  /** The separator does not overlap itself. */
  lemma EntrySeparatorSelfDisjoint()
    ensures SelfDisjoint(EntrySeparator)
  {
    forall k | 0 < k < |EntrySeparator| ensures EntrySeparator[k..] != EntrySeparator[..|EntrySeparator| - k] {
      assert EntrySeparator[k..][0] == '\n' != EntrySeparator[..|EntrySeparator| - k][0];
    }
  }

  /**
   * The usernames of the setting: one per occurrence of the separator, plus
   * one. Even an empty setting gives one (empty) username.
   */
  function ParseUsernames(setting: string): (us: seq<string>)
    ensures us != []
    ensures |us| == Occurrences(Trim(setting), EntrySeparator) + 1
  {
    EntrySeparatorSelfDisjoint();
    SplitCount(Trim(setting), EntrySeparator);
    UnquoteAll(Split(Trim(setting), EntrySeparator))
  }

  /** A username in quotes, as the setting lists it. */
  function Quote(u: string): (q: string)
    ensures |q| == |u| + 2 && q[0] == '"' && q[|q| - 1] == '"'
  {
    "\"" + u + "\""
  }

  function QuoteAll(us: seq<string>): (r: seq<string>)
    ensures |r| == |us|
    ensures forall i :: 0 <= i < |us| ==> r[i] == Quote(us[i])
  {
    if us == [] then [] else [Quote(us[0])] + QuoteAll(us[1..])
  }

  /** The setting that lists the given usernames: each in quotes, separated by the entry separator. */
  function FormatUsernames(us: seq<string>): string
  {
    Join(QuoteAll(us), EntrySeparator)
  }

  /** Leading white space is trimmed off up to the first other character. */
  lemma {:induction false} TrimStartPadded(pad: string, s: string)
    requires forall i :: 0 <= i < |pad| ==> IsWhiteSpace(pad[i])
    requires s != [] && !IsWhiteSpace(s[0])
    ensures TrimStart(pad + s) == s
  {
    if pad != [] {
      assert (pad + s)[1..] == pad[1..] + s;
      TrimStartPadded(pad[1..], s);
    }
  }

  /** Trailing white space is trimmed off back to the last other character. */
  lemma {:induction false} TrimEndPadded(s: string, pad: string)
    requires forall i :: 0 <= i < |pad| ==> IsWhiteSpace(pad[i])
    requires s != [] && !IsWhiteSpace(s[|s| - 1])
    ensures TrimEnd(s + pad) == s
  {
    if pad != [] {
      var shorter := pad[..|pad| - 1];
      assert (s + pad)[..|s + pad| - 1] == s + shorter;
      TrimEndPadded(s, shorter);
    } else {
      assert s + pad == s;
    }
  }

  /** An entry may carry white space on either side of its quotes: unquoting gives back the username. */
  lemma EntryPadding(lead: string, u: string, trail: string)
    requires forall i :: 0 <= i < |lead| ==> IsWhiteSpace(lead[i])
    requires forall i :: 0 <= i < |trail| ==> IsWhiteSpace(trail[i])
    ensures Unquote(lead + Quote(u) + trail) == u
  {
    var q := Quote(u);
    assert lead + q + trail == lead + (q + trail);
    TrimStartPadded(lead, q + trail);
    TrimEndPadded(q, trail);
    SliceUnwrap('"', u, '"');
  }

  /** A quoted username is its own trim and unquotes to the username. */
  lemma UnquoteQuote(u: string)
    ensures Unquote(Quote(u)) == u
  {
    TrimUnchanged(Quote(u));
    SliceUnwrap('"', u, '"');
  }

  /** A formatted setting starts and ends with a quote, so trimming leaves it unchanged. */
  lemma FormatTrimmed(us: seq<string>)
    requires us != []
    ensures Trim(FormatUsernames(us)) == FormatUsernames(us)
  {
    var qs := QuoteAll(us);
    var f := FormatUsernames(us);
    JoinEnds(qs, EntrySeparator);
    assert f[0] == f[..|qs[0]|][0] == '"';
    assert f[|f| - 1] == f[|f| - |qs[|qs| - 1]|..][|qs[|qs| - 1]| - 1] == '"';
    TrimUnchanged(f);
  }

  /** A formatted setting splits back into the quoted usernames. */
  lemma FormatSplits(us: seq<string>)
    requires us != []
    requires forall i :: 0 <= i < |us| ==> '\n' !in us[i]
    ensures Split(FormatUsernames(us), EntrySeparator) == QuoteAll(us)
  {
    var qs := QuoteAll(us);
    forall i | 0 <= i < |qs| ensures !Contains(qs[i], EntrySeparator) && NoStraddle(qs[i], EntrySeparator) {
      QuotedEntry(us[i]);
    }
    SplitJoin(qs, EntrySeparator);
  }

  /** A quoted username without a line break neither holds nor straddles the entry separator. */
  lemma QuotedEntry(u: string)
    requires '\n' !in u
    ensures !Contains(Quote(u), EntrySeparator) && NoStraddle(Quote(u), EntrySeparator)
  {
    var q := Quote(u);
    assert '\n' !in q by {
      assert q == "\"" + u + "\"";
    }
    AbsentCharNotContained(q, EntrySeparator, '\n');
    assert q[|q| - 1..] == ['"'];
  }

  /**
   * Parsing undoes formatting: the setting that lists some usernames, each in
   * quotes, parses back to exactly those usernames, provided none of them
   * holds a line break.
   */
  lemma ParseFormat(us: seq<string>)
    requires us != []
    requires forall i :: 0 <= i < |us| ==> '\n' !in us[i]
    ensures ParseUsernames(FormatUsernames(us)) == us
  {
    FormatTrimmed(us);
    FormatSplits(us);
    var r := ParseUsernames(FormatUsernames(us));
    assert r == UnquoteAll(QuoteAll(us));
    forall i | 0 <= i < |us| ensures r[i] == us[i] {
      UnquoteQuote(us[i]);
    }
  }

  /** The setting `"alice",` and `"bob"` on the next line gives the usernames `alice` and `bob`. */
  lemma ParseExample()
    ensures ParseUsernames("\"alice\",\n\"bob\"") == ["alice", "bob"]
  {
    var us := ["alice", "bob"];
    var qs := QuoteAll(us);
    assert qs[0] == "\"alice\"" && qs[1] == "\"bob\"";
    assert qs[1..] == [qs[1]];
    assert FormatUsernames(us) == qs[0] + EntrySeparator + qs[1] == "\"alice\",\n\"bob\"";
    ParseFormat(us);
  }

  /** A setting without a line break and without surrounding white space is a single entry. */
  lemma SingleEntry(setting: string)
    requires '\n' !in setting && Trim(setting) == setting
    ensures ParseUsernames(setting) == [Unquote(setting)]
  {
    assert Split(setting, EntrySeparator) == [setting] by {
      AbsentCharNotContained(setting, EntrySeparator, '\n');
      assert Find(setting, EntrySeparator).None?;
    }
    assert UnquoteAll([setting]) == [Unquote(setting)] by {
      var us := UnquoteAll([setting]);
      assert |us| == 1 && us[0] == Unquote(setting);
    }
  }

  /**
   * A setting of one line that neither starts nor ends with white space is a
   * single entry that loses its first and last character, whether these are
   * quotes or not.
   */
  lemma BareEntry(setting: string)
    requires '\n' !in setting && |setting| >= 2
    requires !IsWhiteSpace(setting[0]) && !IsWhiteSpace(setting[|setting| - 1])
    ensures ParseUsernames(setting) == [setting[1..|setting| - 1]]
  {
    TrimUnchanged(setting);
    SingleEntry(setting);
    SliceInner(setting);
  }

  /**
   * A bare username, written without quotes as the setting's description
   * suggests, loses its first and last letter: `alice` searches for `lic`.
   */
  lemma BareUsername()
    ensures ParseUsernames("alice") == ["lic"]
  {
    BareEntry("alice");
    assert "alice"[1..4] == "lic";
  }

  /** An empty setting gives a single empty username. */
  lemma ParseEmpty()
    ensures ParseUsernames("") == [""]
  {
    assert Trim("") == "";
    assert Find("", EntrySeparator).None?;
  }

  /** Formatting no usernames gives the empty setting, which parses to one empty username, not back to none. */
  lemma ParseFormatEmpty()
    ensures FormatUsernames([]) == ""
    ensures ParseUsernames(FormatUsernames([])) == [""]
  {
    ParseEmpty();
  }

  /** `assignee=${id}` */
  function AssigneeTerm(u: string): string
  {
    "assignee=" + u
  }

  function AssigneeTerms(us: seq<string>): (r: seq<string>)
    ensures |r| == |us|
    ensures forall i :: 0 <= i < |us| ==> r[i] == AssigneeTerm(us[i])
  {
    if us == [] then [] else [AssigneeTerm(us[0])] + AssigneeTerms(us[1..])
  }

  /** The separator between the assignee terms. */
  const TermSeparator := " OR "

  /** What follows the assignee terms: only issues not in a closed status, newest first. */
  const StatusFilter := ") AND status NOT IN (Closed, Rejected, Done, Deployed, Live) ORDER BY created DESC"

  /** The search query for the given usernames. */
  function Jql(us: seq<string>): (q: string)
    ensures |q| >= 1 + |StatusFilter| && q[0] == '('
    ensures q[|q| - |StatusFilter|..] == StatusFilter
  {
    var q := "(" + Join(AssigneeTerms(us), TermSeparator) + StatusFilter;
    assert q[|q| - |StatusFilter|..] == StatusFilter;
    q
  }

  /** The assignee terms inside the parentheses of the query. */
  function AssigneePart(q: string): string
    requires |q| >= 1 + |StatusFilter|
  {
    q[1..|q| - |StatusFilter|]
  }

  /** The part between the query's parentheses is the joined assignee terms. */
  lemma AssigneePartOfJql(us: seq<string>)
    ensures AssigneePart(Jql(us)) == Join(AssigneeTerms(us), TermSeparator)
  {
    var m := Join(AssigneeTerms(us), TermSeparator);
    var q := Jql(us);
    assert q == "(" + m + StatusFilter;
    assert q[1..|q| - |StatusFilter|] == m;
  }

  /**
   * The query holds one `assignee=` term per username, in their order, and
   * nothing else between its parentheses, provided no username holds a
   * space: the joined terms, which `AssigneePartOfJql` finds between the
   * parentheses, split back at ` OR ` into the terms.
   */
  lemma TermsSplit(us: seq<string>)
    requires us != []
    requires forall i :: 0 <= i < |us| ==> ' ' !in us[i]
    ensures Split(Join(AssigneeTerms(us), TermSeparator), TermSeparator) == AssigneeTerms(us)
  {
    var terms := AssigneeTerms(us);
    forall i | 0 <= i < |terms| ensures !Contains(terms[i], TermSeparator) && NoStraddle(terms[i], TermSeparator) {
      TermClean(us[i]);
    }
    SplitJoin(terms, TermSeparator);
  }

  /** The term of a username without a space neither holds nor straddles ` OR `. */
  lemma TermClean(u: string)
    requires ' ' !in u
    ensures !Contains(AssigneeTerm(u), TermSeparator) && NoStraddle(AssigneeTerm(u), TermSeparator)
  {
    var term := AssigneeTerm(u);
    assert ' ' !in term by {
      assert term == "assignee=" + u;
    }
    AbsentCharNotContained(term, TermSeparator, ' ');
    NoStraddleFirstChar(term, TermSeparator);
  }

  /** The query for a single username holds its one `assignee=` term. */
  lemma JqlOfOne(u: string)
    ensures Jql([u]) == "(" + AssigneeTerm(u) + StatusFilter
  {
    assert AssigneeTerms([u]) == [AssigneeTerm(u)];
  }

  /** The query for the usernames of an empty setting asks for the empty assignee. */
  lemma JqlOfEmptySetting()
    ensures Jql(ParseUsernames("")) == "(assignee=" + StatusFilter
  {
    ParseEmpty();
    JqlOfOne("");
    assert "(" + AssigneeTerm("") == "(assignee=";
  }
}
