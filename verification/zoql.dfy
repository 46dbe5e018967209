/** The ZOQL query composer (zoql_composer.go): a record of table, fields,
    one filter and and-/or-filter lists, set through functional options and
    serialised into the JSON envelope of a query request. A parser of that
    envelope is the composer's partner: every well-formed composer can be
    read back from the text it builds. */
module Zoql {
  import opened Wrappers
  import opened Text

  // ===========================================================================
  // The composer and its functional options
  // ===========================================================================

  /** `QueryFilter`: one `Key = 'Value'` condition. */
  datatype QueryFilter = QueryFilter(key: string, value: string)

  /** `ZoqlComposer`. */
  datatype ZoqlComposer = ZoqlComposer(
    table: string, fields: seq<string>, filter: QueryFilter,
    orFilter: seq<QueryFilter>, andFilter: seq<QueryFilter>)

  /** The zero `QueryFilter` a new composer holds. */
  const NoFilter := QueryFilter("", "")

  /** The three functional options `QueryWithFilter`, `QueryWithOrFilter`
      and `QueryWithAndFilter`, as data. */
  datatype ComposerOption =
    | WithFilter(filter: QueryFilter)
    | WithOrFilter(orFilter: seq<QueryFilter>)
    | WithAndFilter(andFilter: seq<QueryFilter>)

  /** Running an option: it overwrites the one field it is named after and
      leaves the table, the fields and the other filters as they were. */
  function Apply(q: ZoqlComposer, o: ComposerOption): (r: ZoqlComposer)
    ensures r.table == q.table && r.fields == q.fields
    ensures o.WithFilter? ==> r.filter == o.filter && r.orFilter == q.orFilter && r.andFilter == q.andFilter
    ensures o.WithOrFilter? ==> r.orFilter == o.orFilter && r.filter == q.filter && r.andFilter == q.andFilter
    ensures o.WithAndFilter? ==> r.andFilter == o.andFilter && r.filter == q.filter && r.orFilter == q.orFilter
  {
    match o
    case WithFilter(f) => q.(filter := f)
    case WithOrFilter(fs) => q.(orFilter := fs)
    case WithAndFilter(fs) => q.(andFilter := fs)
  }

  /** Runs the options on `q` from left to right. */
  function ApplyAll(q: ZoqlComposer, opts: seq<ComposerOption>): ZoqlComposer
    decreases |opts|
  {
    if |opts| == 0 then q else ApplyAll(Apply(q, opts[0]), opts[1..])
  }

  /** `NewZoqlComposer`: table and fields set, zero filters, then the options
      in the order given. */
  function NewZoqlComposer(table: string, fields: seq<string>, opts: seq<ComposerOption>): ZoqlComposer
  {
    ApplyAll(ZoqlComposer(table, fields, NoFilter, [], []), opts)
  }

  /** Two options of the same kind: the later one wins. */
  predicate SameKind(o1: ComposerOption, o2: ComposerOption)
  {
    (o1.WithFilter? && o2.WithFilter?) || (o1.WithOrFilter? && o2.WithOrFilter?)
    || (o1.WithAndFilter? && o2.WithAndFilter?)
  }

  lemma ApplyLastWins(q: ZoqlComposer, o1: ComposerOption, o2: ComposerOption)
    requires SameKind(o1, o2)
    ensures Apply(Apply(q, o1), o2) == Apply(q, o2)
  {
  }

  /** Options of different kinds commute. */
  lemma ApplyCommutes(q: ZoqlComposer, o1: ComposerOption, o2: ComposerOption)
    requires !SameKind(o1, o2)
    ensures Apply(Apply(q, o1), o2) == Apply(Apply(q, o2), o1)
  {
  }

  /** A reference for the outcome of a list of options, read from its end:
      the last option of each kind decides that field, and a field no option
      names keeps its zero value. */
  function LastFilter(opts: seq<ComposerOption>, dflt: QueryFilter): QueryFilter
  {
    if |opts| == 0 then dflt
    else if opts[|opts| - 1].WithFilter? then opts[|opts| - 1].filter
    else LastFilter(opts[..|opts| - 1], dflt)
  }

  function LastOrFilter(opts: seq<ComposerOption>, dflt: seq<QueryFilter>): seq<QueryFilter>
  {
    if |opts| == 0 then dflt
    else if opts[|opts| - 1].WithOrFilter? then opts[|opts| - 1].orFilter
    else LastOrFilter(opts[..|opts| - 1], dflt)
  }

  function LastAndFilter(opts: seq<ComposerOption>, dflt: seq<QueryFilter>): seq<QueryFilter>
  {
    if |opts| == 0 then dflt
    else if opts[|opts| - 1].WithAndFilter? then opts[|opts| - 1].andFilter
    else LastAndFilter(opts[..|opts| - 1], dflt)
  }

  /** Running one more option after a list is applying it to the list's
      outcome: the options really run from left to right. */
  lemma {:induction false} ApplyAllSnoc(q: ZoqlComposer, opts: seq<ComposerOption>, o: ComposerOption)
    ensures ApplyAll(q, opts + [o]) == Apply(ApplyAll(q, opts), o)
    decreases |opts|
  {
    if |opts| == 0 {
      assert ([] + [o])[1..] == [];
    } else {
      assert (opts + [o])[1..] == opts[1..] + [o];
      ApplyAllSnoc(Apply(q, opts[0]), opts[1..], o);
    }
  }

  /** Whatever the order of the options, each field ends up as the last
      option of its kind left it; table and fields are never touched. */
  lemma {:induction false} ApplyAllLastWins(q: ZoqlComposer, opts: seq<ComposerOption>)
    ensures ApplyAll(q, opts) == ZoqlComposer(q.table, q.fields,
      LastFilter(opts, q.filter), LastOrFilter(opts, q.orFilter), LastAndFilter(opts, q.andFilter))
    decreases |opts|
  {
    if |opts| > 0 {
      var init := opts[..|opts| - 1];
      var o := opts[|opts| - 1];
      assert init + [o] == opts;
      ApplyAllSnoc(q, init, o);
      ApplyAllLastWins(q, init);
    }
  }

  /** `NewZoqlComposer` in terms of the reference: zero filters unless an
      option of that kind was given, and then the last one. */
  lemma NewZoqlComposerFields(table: string, fields: seq<string>, opts: seq<ComposerOption>)
    ensures NewZoqlComposer(table, fields, opts)
         == ZoqlComposer(table, fields, LastFilter(opts, NoFilter), LastOrFilter(opts, []), LastAndFilter(opts, []))
  {
    ApplyAllLastWins(ZoqlComposer(table, fields, NoFilter, [], []), opts);
  }

  // ===========================================================================
  // Build: a template with two %v verbs, formatted with fields and table
  // ===========================================================================

  /** The fixed text around the query: the JSON envelope's opening up to
      "select ", the keyword between fields and table, the two verbs, and
      the envelope's end. */
  const Opening := "{ \"queryString\" : \"select "
  const From := " from "
  const Verb := "%v"
  const Closing := "\" }"

  lemma FixedTextHasNoPercent()
    ensures '%' !in Opening && '%' !in From && '%' !in Closing
  {
  }

  /** Characters that `fmt` reads as flags, width, precision or argument
      index between '%' and the verb. */
  const FlagOrWidth := "#0+- 123456789.*["

  const NoVerb := "%!(NOVERB)"
  const Missing := "(MISSING)"

  /** `fmt.Sprintf` on string operands, as far as `Build` can reach it: text
      outside directives is copied; "%%" prints '%'; "%v" prints the next
      operand; a verb with no operand left prints "%!c(MISSING)"; a '%' at
      the very end prints "%!(NOVERB)". Any other directive (flags, width,
      precision, argument indexes, or a verb other than v while operands
      remain) is not interpreted: its '%' is copied as text. */
  function Format(t: string, args: seq<string>): string
    decreases |t|
  {
    if |t| == 0 then ""
    else if t[0] != '%' then [t[0]] + Format(t[1..], args)
    else if |t| == 1 then NoVerb
    else if t[1] == '%' then "%" + Format(t[2..], args)
    else if t[1] == 'v' && |args| > 0 then args[0] + Format(t[2..], args[1..])
    else if |args| == 0 && t[1] !in FlagOrWidth then "%!" + [t[1]] + Missing + Format(t[2..], args)
    else [t[0]] + Format(t[1..], args)
  }

  /** A stretch of template without '%' is copied unchanged. */
  lemma {:induction false} FormatLiteral(t: string, u: string, args: seq<string>)
    requires '%' !in t
    ensures Format(t + u, args) == t + Format(u, args)
    decreases |t|
  {
    if |t| == 0 {
      assert t + u == u;
    } else {
      assert t[0] in t;
      assert (t + u)[0] == t[0] != '%';
      assert (t + u)[1..] == t[1..] + u;
      assert Format(t + u, args) == [t[0]] + Format(t[1..] + u, args);
      assert '%' !in t[1..] by {
        forall i | 0 <= i < |t| - 1 ensures t[1..][i] != '%' {
          assert t[1..][i] == t[i + 1] && t[i + 1] in t;
        }
      }
      FormatLiteral(t[1..], u, args);
      assert [t[0]] + (t[1..] + Format(u, args)) == t + Format(u, args);
    }
  }

  lemma FormatVerb(u: string, a: string, args: seq<string>)
    ensures Format("%v" + u, [a] + args) == a + Format(u, args)
  {
    assert ("%v" + u)[2..] == u;
    assert ([a] + args)[1..] == args;
  }

  lemma FormatAll(t: string)
    requires '%' !in t
    ensures Format(t, []) == t
  {
    FormatLiteral(t, "", []);
    assert t + "" == t;
  }

  lemma NoPercentAppend(t: string, u: string)
    requires '%' !in t && '%' !in u
    ensures '%' !in t + u
  {
  }

  /** A template that opens with two "%v" verbs: they take the two
      operands, and what follows them is formatted with none left. */
  lemma FormatTwoVerbs(head: string, a: string, mid: string, b: string, rest: string)
    requires '%' !in head && '%' !in mid
    ensures Format(head + Verb + mid + Verb + rest, [a, b]) == head + (a + (mid + (b + Format(rest, []))))
  {
    var tail := "%v" + rest;
    var x := "%v" + (mid + tail);
    assert head + Verb + mid + Verb + rest == head + x;
    calc {
      Format(head + x, [a, b]);
    == { FormatLiteral(head, x, [a, b]); }
      head + Format(x, [a, b]);
    == { assert [a, b] == [a] + [b]; FormatVerb(mid + tail, a, [b]); }
      head + (a + Format(mid + tail, [b]));
    == { FormatLiteral(mid, tail, [b]); }
      head + (a + (mid + Format(tail, [b])));
    == { assert [b] == [b] + []; FormatVerb(rest, b, []); }
      head + (a + (mid + (b + Format(rest, []))));
    }
  }

  /** `fmt.Sprintf(" %v %v = '%v'", sep, key, value)`. */
  function FilterBody(f: QueryFilter): string
  {
    f.key + " = '" + f.value + "'"
  }

  function Segment(sep: string, f: QueryFilter): string
  {
    " " + sep + " " + FilterBody(f)
  }

  /** `buildFilter`: one " sep K = 'V'" segment per filter, in list order. */
  function BuildFilter(filters: seq<QueryFilter>, sep: string): string
  {
    if |filters| == 0 then "" else Segment(sep, filters[0]) + BuildFilter(filters[1..], sep)
  }

  /** " where K = 'V'", written only when the filter key is non-empty. */
  function WhereClause(f: QueryFilter): string
  {
    if f.key != "" then " where " + FilterBody(f) else ""
  }

  /** Everything `Build` writes after the table: the where clause, every
      and-segment, then every or-segment. */
  function Conditions(q: ZoqlComposer): string
  {
    WhereClause(q.filter)
    + (if |q.andFilter| > 0 then BuildFilter(q.andFilter, "and") else "")
    + (if |q.orFilter| > 0 then BuildFilter(q.orFilter, "or") else "")
  }

  /** The buffer `Build` assembles before formatting it. */
  function Template(q: ZoqlComposer): string
  {
    Opening + Verb + From + Verb + Conditions(q) + Closing
  }

  /** The filter text `Build` copies into its template holds no '%', so
      the template's only verbs are the two "%v" for fields and table. */
  predicate FormatSafe(q: ZoqlComposer)
  {
    '%' !in Conditions(q)
  }

  /** The text `Build` evidently means to produce: "select F1, F2 from T"
      and the conditions, copied as they are, inside the JSON envelope. A
      well-formed composer reads back from it. */
  function BuildIntended(q: ZoqlComposer): (s: string)
    ensures WellFormed(q) ==> Parse(s) == Some(Normalize(q))
  {
    BuildParse(q);
    Opening + (Join(q.fields, ", ") + (From + (q.table + (Conditions(q) + Closing))))
  }

  /** `Build` on a template without stray '%'. */
  lemma BuildWhenSafe(q: ZoqlComposer)
    ensures FormatSafe(q) ==> Format(Template(q), [Join(q.fields, ", "), q.table]) == BuildIntended(q)
  {
    if FormatSafe(q) {
      FixedTextHasNoPercent();
      NoPercentAppend(Conditions(q), Closing);
      assert Template(q) == Opening + Verb + From + Verb + (Conditions(q) + Closing);
      FormatTwoVerbs(Opening, Join(q.fields, ", "), From, q.table, Conditions(q) + Closing);
      FormatAll(Conditions(q) + Closing);
    }
  }

  /** `Build`: the filter text is written into the buffer that then serves
      as `Sprintf`'s format string, with fields and table as operands. When
      the filter text holds no '%' the result is the intended query: the
      envelope around "select F1, F2 from T" followed by the where clause,
      the and-segments and the or-segments, in that order whatever order
      the options were given in. */
  function Build(q: ZoqlComposer): (s: string)
    ensures FormatSafe(q) ==> s == BuildIntended(q)
  {
    BuildWhenSafe(q);
    Format(Template(q), [Join(q.fields, ", "), q.table])
  }

  /** `String` builds the query; a well-formed composer without '%' in its
      filters reads back from it. */
  function String(q: ZoqlComposer): (s: string)
    ensures FormatSafe(q) && WellFormed(q) ==> Parse(s) == Some(Normalize(q))
  {
    Build(q)
  }

  // ===========================================================================
  // The partner: reading a built query back
  // ===========================================================================

  /** Characters an identifier (table, field, filter key) may hold. */
  predicate IsTokenChar(c: char)
  {
    c != ' ' && c != ',' && c != '\'' && c != '"'
  }

  predicate IsToken(s: string)
  {
    |s| > 0 && forall i | 0 <= i < |s| :: IsTokenChar(s[i])
  }

  /** A value may hold anything but the closing quote. */
  predicate WellFormedFilter(f: QueryFilter)
  {
    IsToken(f.key) && '\'' !in f.value
  }

  predicate WellFormedFilters(fs: seq<QueryFilter>)
  {
    forall i | 0 <= i < |fs| :: WellFormedFilter(fs[i])
  }

  /** The composers whose query text is unambiguous. */
  predicate WellFormed(q: ZoqlComposer)
  {
    IsToken(q.table) && |q.fields| > 0 && (forall i | 0 <= i < |q.fields| :: IsToken(q.fields[i]))
    && (q.filter.key == "" || WellFormedFilter(q.filter))
    && WellFormedFilters(q.andFilter) && WellFormedFilters(q.orFilter)
  }

  /** What the text determines: a filter with an empty key is not written,
      so its value is not recoverable. */
  function Normalize(q: ZoqlComposer): ZoqlComposer
  {
    if q.filter.key == "" then q.(filter := NoFilter) else q
  }

  /** The longest prefix of identifier characters, and what follows it. */
  function TakeToken(s: string): (r: (string, string))
    ensures r.0 + r.1 == s
    ensures forall i | 0 <= i < |r.0| :: IsTokenChar(r.0[i])
    ensures EndsToken(r.1)
    decreases |s|
  {
    if |s| == 0 || !IsTokenChar(s[0]) then ("", s)
    else
      var (t, rest) := TakeToken(s[1..]);
      assert [s[0]] + t + rest == [s[0]] + (t + rest);
      ([s[0]] + t, rest)
  }

  /** `K = 'V'` followed by the rest of the text. */
  function ParseFilterBody(s: string): Option<(QueryFilter, string)>
  {
    var (key, rest) := TakeToken(s);
    if key == "" then None
    else
      match DropPrefix(rest, " = '")
      case None => None
      case Some(t) =>
        match SplitAtFirst(t, '\'')
        case None => None
        case Some(parts) => Some((QueryFilter(key, parts.0), parts.1))
  }

  /** As many " sep K = 'V'" segments as the text starts with. */
  function ParseSegments(s: string, sep: string): Option<(seq<QueryFilter>, string)>
    decreases |s|
  {
    match DropPrefix(s, " " + sep + " ")
    case None => Some(([], s))
    case Some(t) =>
      match ParseFilterBody(t)
      case None => None
      case Some(fr) =>
        if |fr.1| >= |s| then None
        else
          match ParseSegments(fr.1, sep)
          case None => None
          case Some(more) => Some(([fr.0] + more.0, more.1))
  }

  /** An optional " where K = 'V'". */
  function ParseWhere(s: string): Option<(QueryFilter, string)>
  {
    match DropPrefix(s, " where ")
    case None => Some((NoFilter, s))
    case Some(w) => ParseFilterBody(w)
  }

  /** What follows the table: where clause, and-segments, or-segments and
      the envelope's end, nothing else. */
  function ParseConditions(s: string): Option<(QueryFilter, seq<QueryFilter>, seq<QueryFilter>)>
  {
    match ParseWhere(s)
    case None => None
    case Some(wr) =>
      match ParseSegments(wr.1, "and")
      case None => None
      case Some(ands) =>
        match ParseSegments(ands.1, "or")
        case None => None
        case Some(ors) =>
          if ors.1 == Closing then Some((wr.0, ands.0, ors.0)) else None
  }

  /** A comma-separated field list. */
  function ParseFields(s: string): Option<(seq<string>, string)>
    decreases |s|
  {
    var (field, rest) := TakeToken(s);
    if field == "" then None
    else
      match DropPrefix(rest, ", ")
      case None => Some(([field], rest))
      case Some(t) =>
        match ParseFields(t)
        case None => None
        case Some(more) => Some(([field] + more.0, more.1))
  }

  /** What follows "select ": fields, " from ", the table and the conditions. */
  function ParseSelect(s: string): Option<ZoqlComposer>
  {
    match ParseFields(s)
    case None => None
    case Some(fs) =>
      match DropPrefix(fs.1, From)
      case None => None
      case Some(u) =>
        var (table, afterTable) := TakeToken(u);
        if table == "" then None
        else
          match ParseConditions(afterTable)
          case None => None
          case Some(c) => Some(ZoqlComposer(table, fs.0, c.0, c.2, c.1))
  }

  /** Reads a query envelope back into a composer. */
  function Parse(s: string): Option<ZoqlComposer>
  {
    match DropPrefix(s, Opening)
    case None => None
    case Some(t) => ParseSelect(t)
  }

  // ---------------------------------------------------------------------------
  // The round trip
  // ---------------------------------------------------------------------------

  /** A text that cannot continue an identifier. */
  predicate EndsToken(rest: string)
  {
    |rest| == 0 || !IsTokenChar(rest[0])
  }

  /** A text whose `i`-th character differs from the prefix's does not
      start with it. */
  lemma NotPrefix(s: string, p: string, i: nat)
    requires i < |p| && i < |s| && s[i] != p[i]
    ensures DropPrefix(s, p).None?
  {
    if |p| <= |s| {
      assert s[..|p|][i] != p[i];
    }
  }

  lemma {:induction false} TakeTokenOf(tok: string, rest: string)
    requires forall i | 0 <= i < |tok| :: IsTokenChar(tok[i])
    requires EndsToken(rest)
    ensures TakeToken(tok + rest) == (tok, rest)
    decreases |tok|
  {
    if |tok| == 0 {
      assert tok + rest == rest;
    } else {
      assert (tok + rest)[1..] == tok[1..] + rest;
      TakeTokenOf(tok[1..], rest);
      assert [tok[0]] + tok[1..] == tok;
    }
  }

  lemma ParseFilterBodyOf(f: QueryFilter, rest: string)
    requires WellFormedFilter(f)
    ensures ParseFilterBody(FilterBody(f) + rest) == Some((f, rest))
  {
    var tail := " = '" + (f.value + ['\''] + rest);
    assert FilterBody(f) + rest == f.key + tail;
    TakeTokenOf(f.key, tail);
    DropPrefixOf(" = '", f.value + ['\''] + rest);
    SplitAtFirstOf(f.value, '\'', rest);
  }

  /** One segment is read and the rest is left to the next round. */
  lemma ParseSegmentsStep(f: QueryFilter, sep: string, after: string)
    requires WellFormedFilter(f)
    ensures ParseSegments(Segment(sep, f) + after, sep)
         == match ParseSegments(after, sep)
            case None => None
            case Some(more) => Some(([f] + more.0, more.1))
  {
    var s := Segment(sep, f) + after;
    assert s == (" " + sep + " ") + (FilterBody(f) + after);
    DropPrefixOf(" " + sep + " ", FilterBody(f) + after);
    ParseFilterBodyOf(f, after);
  }

  /** A text that does not begin another " sep " segment. */
  predicate EndsSegments(rest: string, sep: string)
  {
    DropPrefix(rest, " " + sep + " ").None?
  }

  lemma {:induction false} ParseSegmentsOf(fs: seq<QueryFilter>, sep: string, rest: string)
    requires WellFormedFilters(fs)
    requires EndsSegments(rest, sep)
    ensures ParseSegments(BuildFilter(fs, sep) + rest, sep) == Some((fs, rest))
    decreases |fs|
  {
    if |fs| == 0 {
      assert BuildFilter(fs, sep) + rest == rest;
    } else {
      var after := BuildFilter(fs[1..], sep) + rest;
      assert BuildFilter(fs, sep) + rest == Segment(sep, fs[0]) + after;
      ParseSegmentsStep(fs[0], sep, after);
      assert WellFormedFilters(fs[1..]) by {
        forall i | 0 <= i < |fs| - 1 ensures WellFormedFilter(fs[1..][i]) {
          assert fs[1..][i] == fs[i + 1];
        }
      }
      ParseSegmentsOf(fs[1..], sep, rest);
      assert [fs[0]] + fs[1..] == fs;
    }
  }

  /** The first two characters of a non-empty segment list. */
  lemma BuildFilterStart(fs: seq<QueryFilter>, sep: string, rest: string)
    requires |fs| > 0 && |sep| > 0
    ensures |BuildFilter(fs, sep) + rest| > 1
    ensures (BuildFilter(fs, sep) + rest)[0] == ' ' && (BuildFilter(fs, sep) + rest)[1] == sep[0]
  {
    assert BuildFilter(fs, sep) + rest == " " + (sep + (" " + FilterBody(fs[0]) + BuildFilter(fs[1..], sep) + rest));
  }

  lemma {:induction false} ParseFieldsOf(fields: seq<string>, rest: string)
    requires |fields| > 0 && forall i | 0 <= i < |fields| :: IsToken(fields[i])
    requires DropPrefix(rest, ", ").None? && EndsToken(rest)
    ensures ParseFields(Join(fields, ", ") + rest) == Some((fields, rest))
    decreases |fields|
  {
    if |fields| == 1 {
      assert Join(fields, ", ") == fields[0];
      TakeTokenOf(fields[0], rest);
      assert [fields[0]] == fields;
    } else {
      var after := Join(fields[1..], ", ") + rest;
      assert Join(fields, ", ") + rest == fields[0] + (", " + after);
      TakeTokenOf(fields[0], ", " + after);
      DropPrefixOf(", ", after);
      assert forall i | 0 <= i < |fields| - 1 :: fields[1..][i] == fields[i + 1];
      ParseFieldsOf(fields[1..], rest);
      assert [fields[0]] + fields[1..] == fields;
    }
  }

  /** The where clause, when written, is read back; otherwise nothing is
      taken. */
  lemma ParseWhereOf(f: QueryFilter, rest: string)
    requires f.key != "" ==> WellFormedFilter(f)
    requires f.key == "" ==> DropPrefix(rest, " where ").None?
    ensures ParseWhere(WhereClause(f) + rest) == Some((if f.key == "" then NoFilter else f, rest))
  {
    if f.key != "" {
      assert WhereClause(f) + rest == " where " + (FilterBody(f) + rest);
      DropPrefixOf(" where ", FilterBody(f) + rest);
      ParseFilterBodyOf(f, rest);
    } else {
      assert WhereClause(f) + rest == rest;
    }
  }

  /** Everything after the table reads back into the three filters. */
  lemma ParseConditionsOf(q: ZoqlComposer)
    requires WellFormed(q)
    ensures ParseConditions(Conditions(q) + Closing) == Some((Normalize(q).filter, q.andFilter, q.orFilter))
  {
    var ors := BuildFilter(q.orFilter, "or") + Closing;
    var ands := BuildFilter(q.andFilter, "and") + ors;
    ConditionsSplit(q);
    TailEndsSegments();
    OrsEndAnds(q.orFilter);
    AndsEndWhere(q.andFilter, q.orFilter);
    ParseSegmentsOf(q.orFilter, "or", Closing);
    ParseSegmentsOf(q.andFilter, "and", ors);
    ParseWhereOf(q.filter, ands);
  }

  lemma ConditionsSplit(q: ZoqlComposer)
    ensures Conditions(q) + Closing
         == WhereClause(q.filter) + (BuildFilter(q.andFilter, "and") + (BuildFilter(q.orFilter, "or") + Closing))
  {
  }

  /** The envelope's end starts no or-segment. */
  lemma TailEndsSegments()
    ensures EndsSegments(Closing, "or")
  {
    NotPrefix(Closing, " or ", 0);
  }

  /** The or-segments and the envelope's end start no and-segment. */
  lemma OrsEndAnds(ors: seq<QueryFilter>)
    ensures EndsSegments(BuildFilter(ors, "or") + Closing, "and")
  {
    var s := BuildFilter(ors, "or") + Closing;
    if |ors| > 0 {
      BuildFilterStart(ors, "or", Closing);
      NotPrefix(s, " and ", 1);
    } else {
      assert s == Closing;
      NotPrefix(s, " and ", 0);
    }
  }

  /** Nor do the and-segments start a where clause. */
  lemma AndsEndWhere(ands: seq<QueryFilter>, ors: seq<QueryFilter>)
    ensures DropPrefix(BuildFilter(ands, "and") + (BuildFilter(ors, "or") + Closing), " where ").None?
  {
    var rest := BuildFilter(ors, "or") + Closing;
    var s := BuildFilter(ands, "and") + rest;
    if |ands| > 0 {
      BuildFilterStart(ands, "and", rest);
      NotPrefix(s, " where ", 1);
    } else if |ors| > 0 {
      assert s == rest;
      BuildFilterStart(ors, "or", Closing);
      NotPrefix(s, " where ", 1);
    } else {
      assert s == Closing;
      NotPrefix(s, " where ", 0);
    }
  }

  /** Fields, table and conditions read back. */
  lemma ParseSelectOf(q: ZoqlComposer)
    requires WellFormed(q)
    ensures ParseSelect(Join(q.fields, ", ") + (From + (q.table + (Conditions(q) + Closing))))
         == Some(Normalize(q))
  {
    var cond := Conditions(q) + Closing;
    var afterFields := From + (q.table + cond);
    NotPrefix(afterFields, ", ", 0);
    ParseFieldsOf(q.fields, afterFields);
    DropPrefixOf(From, q.table + cond);
    ConditionsStart(q);
    TakeTokenOf(q.table, cond);
    ParseConditionsOf(q);
  }

  /** Parsing undoes building, for every well-formed composer. */
  lemma BuildParse(q: ZoqlComposer)
    ensures WellFormed(q) ==>
      Parse(Opening + (Join(q.fields, ", ") + (From + (q.table + (Conditions(q) + Closing))))) == Some(Normalize(q))
  {
    if WellFormed(q) {
      var body := Join(q.fields, ", ") + (From + (q.table + (Conditions(q) + Closing)));
      ParseOf(body);
      ParseSelectOf(q);
    }
  }

  lemma ParseOf(body: string)
    ensures Parse(Opening + body) == ParseSelect(body)
  {
    DropPrefixOf(Opening, body);
  }

  /** The conditions and the envelope's end begin with a space or a quote. */
  lemma ConditionsStart(q: ZoqlComposer)
    ensures EndsToken(Conditions(q) + Closing)
  {
    var c := Conditions(q) + Closing;
    if q.filter.key != "" {
      assert c[0] == ' ';
    } else if |q.andFilter| > 0 {
      BuildFilterStart(q.andFilter, "and", BuildFilter(q.orFilter, "or") + Closing);
      assert c == BuildFilter(q.andFilter, "and") + (BuildFilter(q.orFilter, "or") + Closing);
    } else if |q.orFilter| > 0 {
      BuildFilterStart(q.orFilter, "or", Closing);
      assert c == BuildFilter(q.orFilter, "or") + Closing;
    } else {
      assert c == Closing;
    }
  }

  /** The text depends on the composer only through its normal form: a
      filter with an empty key is not written, whatever its value. */
  lemma BuildNormalize(q: ZoqlComposer)
    ensures FormatSafe(Normalize(q)) == FormatSafe(q)
    ensures Build(Normalize(q)) == Build(q) && BuildIntended(Normalize(q)) == BuildIntended(q)
  {
    assert Conditions(Normalize(q)) == Conditions(q);
  }

  /** So two well-formed composers build the same text exactly when they
      have the same normal form. */
  lemma BuildInjective(q1: ZoqlComposer, q2: ZoqlComposer)
    requires WellFormed(q1) && WellFormed(q2)
    ensures BuildIntended(q1) == BuildIntended(q2) <==> Normalize(q1) == Normalize(q2)
    ensures FormatSafe(q1) && FormatSafe(q2) ==> (Build(q1) == Build(q2) <==> Normalize(q1) == Normalize(q2))
  {
    BuildNormalize(q1);
    BuildNormalize(q2);
  }

  // ---------------------------------------------------------------------------
  // A '%' in the filter text
  // ---------------------------------------------------------------------------

  /** What `Sprintf` prints for the directive "%'" once both operands are used. */
  const MissingQuote := "%!'(MISSING)"

  lemma MissingQuoteDirective()
    ensures Format("%'" + Closing, []) == MissingQuote + Closing
  {
    var t := "%'" + Closing;
    assert t[0] == '%' && t[1] == '\'' && t[2..] == Closing;
    QuoteIsAVerb();
    FixedTextHasNoPercent();
    FormatAll(Closing);
  }

  lemma QuoteIsAVerb()
    ensures '\'' !in FlagOrWidth && "%!" + ['\''] + Missing == MissingQuote
  {
  }

  lemma WhereWithPercent(key: string, v: string)
    ensures Conditions(ZoqlComposer("", [], QueryFilter(key, v + "%"), [], [])) + Closing
         == (if key != "" then (" where " + key + " = '" + v) + ("%'" + Closing) else Closing)
  {
    assert "%" + "'" == "%'";
  }

  /** As written, a filter value that ends in '%' comes out of `Build` with
      "%!'(MISSING)" where the value's '%' and its closing quote belong: the
      buffer holding the value is `Sprintf`'s format string, and "%'" is a
      directive with no operand left. */
  lemma PercentValueAsWritten(table: string, fields: seq<string>, key: string, v: string)
    requires key != "" && '%' !in key && '%' !in v
    ensures var q := ZoqlComposer(table, fields, QueryFilter(key, v + "%"), [], []);
      Build(q) == Opening + (Join(fields, ", ") + (From + (table + ((" where " + key + " = '" + v) + (MissingQuote + Closing)))))
      && Build(q) != BuildIntended(q)
  {
    var q := ZoqlComposer(table, fields, QueryFilter(key, v + "%"), [], []);
    var p := " where " + key + " = '" + v;
    WhereWithPercent(key, v);
    assert Conditions(q) == Conditions(ZoqlComposer("", [], QueryFilter(key, v + "%"), [], []));
    assert Conditions(q) + Closing == p + ("%'" + Closing);
    FixedTextHasNoPercent();
    assert Template(q) == Opening + Verb + From + Verb + (Conditions(q) + Closing);
    FormatTwoVerbs(Opening, Join(fields, ", "), From, table, Conditions(q) + Closing);
    assert '%' !in " where " && '%' !in " = '";
    FormatLiteral(p, "%'" + Closing, []);
    MissingQuoteDirective();
    assert |Build(q)| == |BuildIntended(q)| + 10;
  }

  /** The smallest case: a filter on the value "50%". */
  lemma PercentValueExample()
    ensures var q := NewZoqlComposer("Product", ProductFields, [WithFilter(QueryFilter("Name", "50%"))]);
      Build(q) != BuildIntended(q) && Parse(BuildIntended(q)) == Some(q)
  {
    var f := QueryFilter("Name", "50%");
    var q := ZoqlComposer("Product", ProductFields, f, [], []);
    assert NewZoqlComposer("Product", ProductFields, [WithFilter(f)]) == q by {
      NewZoqlComposerFields("Product", ProductFields, [WithFilter(f)]);
    }
    assert "50" + "%" == "50%";
    PercentValueAsWritten("Product", ProductFields, "Name", "50");
    ProductQueryWellFormed(f);
  }

  lemma ProductQueryWellFormed(f: QueryFilter)
    requires f.key == "Name" && '\'' !in f.value
    ensures WellFormed(ZoqlComposer("Product", ProductFields, f, [], []))
  {
    assert IsToken("Product") && IsToken("ID") && IsToken("Name");
    assert ProductFields[0] == "ID" && ProductFields[1] == "Name";
  }

  /** The and-segments precede the or-segments in whichever order the two
      options were given. */
  lemma AndBeforeOr(table: string, fields: seq<string>, ands: seq<QueryFilter>, ors: seq<QueryFilter>)
    ensures NewZoqlComposer(table, fields, [WithOrFilter(ors), WithAndFilter(ands)])
         == NewZoqlComposer(table, fields, [WithAndFilter(ands), WithOrFilter(ors)])
  {
    var q := ZoqlComposer(table, fields, NoFilter, [], []);
    assert ApplyAll(q, [WithOrFilter(ors), WithAndFilter(ands)]) == Apply(Apply(q, WithOrFilter(ors)), WithAndFilter(ands)) by {
      ApplyAllSnoc(q, [WithOrFilter(ors)], WithAndFilter(ands));
      assert [WithOrFilter(ors)] + [WithAndFilter(ands)] == [WithOrFilter(ors), WithAndFilter(ands)];
    }
    assert ApplyAll(q, [WithAndFilter(ands), WithOrFilter(ors)]) == Apply(Apply(q, WithAndFilter(ands)), WithOrFilter(ors)) by {
      ApplyAllSnoc(q, [WithAndFilter(ands)], WithOrFilter(ors));
      assert [WithAndFilter(ands)] + [WithOrFilter(ors)] == [WithAndFilter(ands), WithOrFilter(ors)];
    }
  }

  // ---------------------------------------------------------------------------
  // The queries of zoql_composer_test.go
  // ---------------------------------------------------------------------------

  const ProductName := QueryFilter("Name", "productName")
  const ProductFields: seq<string> := ["ID", "Name"]

  lemma ProductFieldsJoin()
    ensures Join(ProductFields, ", ") == "ID, Name"
  {
    assert ProductFields[1..] == ["Name"];
  }

  /** How the test filter is written as a where clause and as segments. */
  lemma ProductNameWhere()
    ensures WhereClause(ProductName) == " where Name = 'productName'"
  {
    assert FilterBody(ProductName) == "Name = 'productName'";
  }

  lemma ProductNameSegment(sep: string)
    ensures Segment(sep, ProductName) == " " + sep + " Name = 'productName'"
  {
    assert FilterBody(ProductName) == "Name = 'productName'";
  }

  predicate PercentFree(f: QueryFilter)
  {
    '%' !in f.key && '%' !in f.value
  }

  /** Filter text free of '%' keeps the conditions free of it. */
  lemma {:induction false} BuildFilterNoPercent(fs: seq<QueryFilter>, sep: string)
    requires (forall i | 0 <= i < |fs| :: PercentFree(fs[i])) && '%' !in sep
    ensures '%' !in BuildFilter(fs, sep)
    decreases |fs|
  {
    if |fs| > 0 {
      assert PercentFree(fs[0]);
      assert forall i | 0 <= i < |fs| - 1 :: fs[1..][i] == fs[i + 1];
      BuildFilterNoPercent(fs[1..], sep);
    }
  }

  /** Filters without '%' make a composer safe to format. */
  lemma PercentFreeIsFormatSafe(q: ZoqlComposer)
    requires PercentFree(q.filter)
    requires forall i | 0 <= i < |q.andFilter| :: PercentFree(q.andFilter[i])
    requires forall i | 0 <= i < |q.orFilter| :: PercentFree(q.orFilter[i])
    ensures FormatSafe(q)
  {
    if q.filter.key != "" {
      BuildFilterNoPercent([q.filter], "where");
      assert BuildFilter([q.filter], "where") == WhereClause(q.filter);
    }
    BuildFilterNoPercent(q.andFilter, "and");
    BuildFilterNoPercent(q.orFilter, "or");
  }

  /** The test queries: table "Product", fields ID and Name, and the
      conditions the options produced. */
  function ProductQueryText(conditions: string): string
  {
    Opening + ("ID, Name" + (From + ("Product" + (conditions + Closing))))
  }

  lemma ProductQuery(q: ZoqlComposer)
    requires q.table == "Product" && q.fields == ProductFields && FormatSafe(q)
    ensures Build(q) == ProductQueryText(Conditions(q))
  {
    ProductFieldsJoin();
  }

  lemma ComposerWithNoFiltersExample()
    ensures var q := NewZoqlComposer("Product", ProductFields, []);
      FormatSafe(q) && Build(q) == ProductQueryText("")
  {
    var q := ZoqlComposer("Product", ProductFields, NoFilter, [], []);
    assert NewZoqlComposer("Product", ProductFields, []) == q;
    assert Conditions(q) == "";
    ProductQuery(q);
  }

  /** The single filter becomes the where clause. */
  lemma ComposerWithSingleFilterExample()
    ensures var q := NewZoqlComposer("Product", ProductFields, [WithFilter(ProductName)]);
      FormatSafe(q) && Build(q) == ProductQueryText(WhereClause(ProductName))
  {
    var q := ZoqlComposer("Product", ProductFields, ProductName, [], []);
    assert NewZoqlComposer("Product", ProductFields, [WithFilter(ProductName)]) == q by {
      NewZoqlComposerFields("Product", ProductFields, [WithFilter(ProductName)]);
    }
    assert Conditions(q) == WhereClause(ProductName);
    ProductNamePercentFree();
    PercentFreeIsFormatSafe(q);
    ProductQuery(q);
  }

  lemma ProductNamePercentFree()
    ensures PercentFree(ProductName)
  {
  }

  /** The options of the or-filter test leave the single filter in place and
      add the or-list. */
  lemma OrOptionsCompose()
    ensures NewZoqlComposer("Product", ProductFields, [WithFilter(ProductName), WithOrFilter([ProductName])])
         == ZoqlComposer("Product", ProductFields, ProductName, [ProductName], [])
  {
    var opts := [WithFilter(ProductName), WithOrFilter([ProductName])];
    var q0 := ZoqlComposer("Product", ProductFields, NoFilter, [], []);
    assert opts[1..] == [WithOrFilter([ProductName])] && opts[1..][1..] == [];
    assert ApplyAll(q0, opts) == ApplyAll(q0.(filter := ProductName), opts[1..]);
  }

  lemma AndOptionsCompose()
    ensures NewZoqlComposer("Product", ProductFields, [WithFilter(ProductName), WithAndFilter([ProductName])])
         == ZoqlComposer("Product", ProductFields, ProductName, [], [ProductName])
  {
    var opts := [WithFilter(ProductName), WithAndFilter([ProductName])];
    var q0 := ZoqlComposer("Product", ProductFields, NoFilter, [], []);
    assert opts[1..] == [WithAndFilter([ProductName])] && opts[1..][1..] == [];
    assert ApplyAll(q0, opts) == ApplyAll(q0.(filter := ProductName), opts[1..]);
  }

  /** Where clause, then one or-segment. */
  lemma ComposerWithOrFilterExample()
    ensures var q := NewZoqlComposer("Product", ProductFields, [WithFilter(ProductName), WithOrFilter([ProductName])]);
      FormatSafe(q)
      && Build(q) == ProductQueryText(WhereClause(ProductName) + Segment("or", ProductName))
  {
    OrOptionsCompose();
    var q := ZoqlComposer("Product", ProductFields, ProductName, [ProductName], []);
    assert BuildFilter([ProductName], "or") == Segment("or", ProductName);
    assert Conditions(q) == WhereClause(ProductName) + Segment("or", ProductName);
    ProductNamePercentFree();
    PercentFreeIsFormatSafe(q);
    ProductQuery(q);
  }

  /** Where clause, then one and-segment. */
  lemma ComposerWithAndFilterExample()
    ensures var q := NewZoqlComposer("Product", ProductFields, [WithFilter(ProductName), WithAndFilter([ProductName])]);
      FormatSafe(q)
      && Build(q) == ProductQueryText(WhereClause(ProductName) + Segment("and", ProductName))
  {
    AndOptionsCompose();
    var q := ZoqlComposer("Product", ProductFields, ProductName, [], [ProductName]);
    assert BuildFilter([ProductName], "and") == Segment("and", ProductName);
    assert Conditions(q) == WhereClause(ProductName) + Segment("and", ProductName);
    ProductNamePercentFree();
    PercentFreeIsFormatSafe(q);
    ProductQuery(q);
  }
}
