/** The struct-text generator of the describe endpoint (describe.go): given
    an object description already read from Zuora's XML, it prints a Go
    struct with one tagged member per field. The HTTP request and the XML
    decoding are left out; the model starts from the decoded field list.

    The printed text is given a reader, `ParseModel`, and the main property
    is that the reader recovers the object name and, per field, the name,
    the Go type and whether the field is required. */
module Describe {
  import opened Wrappers
  import opened Text

  // ---------------------------------------------------------------------------
  // Decoded description
  // ---------------------------------------------------------------------------

  /** `field`: one entry of the `<fields>` element. */
  datatype Field = Field(
    name: string,
    custom: bool,
    fieldLabel: string,
    selectable: bool,
    createable: bool,
    updateable: bool,
    filterable: bool,
    maxlength: string,
    required: bool,
    fieldType: string)

  /** `object`: the described object's name and its fields, in document order. */
  datatype Object = Object(name: string, fields: seq<Field>)

  // ---------------------------------------------------------------------------
  // Emission
  // ---------------------------------------------------------------------------

  /** `getType`: Zuora's "boolean" becomes Go's bool; every other Zuora type,
      listed in the switch or not, becomes string. */
  function GetType(fieldType: string): (r: string)
    ensures r == "bool" <==> fieldType == "boolean"
    ensures r == "bool" || r == "string"
  {
    match fieldType
    case "boolean" => "bool"
    case "picklist" => "string"
    case "text" => "string"
    case _ => "string"
  }

  /** The struct tag: the JSON key is the field name, with ",omitempty"
      unless the field is required. */
  function Tag(name: string, required: bool): string
  {
    "`json:\"" + name + (if required then "" else ",omitempty") + "\"`"
  }

  /** One member line, without its line break. */
  function FieldText(f: Field): string
  {
    f.name + "\t" + GetType(f.fieldType) + "\t" + Tag(f.name, f.required)
  }

  /** The opening line, without its line break. */
  function Header(name: string): string
  {
    "type " + name + " struct{"
  }

  const Closing: string := "}"

  function FieldTexts(fs: seq<Field>): (ts: seq<string>)
    ensures |ts| == |fs|
  {
    seq(|fs|, i requires 0 <= i < |fs| => FieldText(fs[i]))
  }

  /** Lines joined with a line break after each one, built from the end as
      the `strings.Builder` receives them. */
  function Unlines(ls: seq<string>): string
  {
    if |ls| == 0 then "" else Unlines(ls[..|ls| - 1]) + ls[|ls| - 1] + "\n"
  }

  lemma UnlinesSnoc(ls: seq<string>, l: string)
    ensures Unlines(ls + [l]) == Unlines(ls) + l + "\n"
  {
    assert (ls + [l])[..|ls|] == ls;
  }

  /** One more field adds its member line after the ones already printed. */
  lemma HeadedSnoc(name: string, fs: seq<Field>, f: Field)
    ensures Unlines([Header(name)] + FieldTexts(fs + [f]))
         == Unlines([Header(name)] + FieldTexts(fs)) + FieldText(f) + "\n"
  {
    var ls := [Header(name)] + FieldTexts(fs);
    assert [Header(name)] + FieldTexts(fs + [f]) == ls + [FieldText(f)];
    UnlinesSnoc(ls, FieldText(f));
  }

  /** The struct text for an object name and a field list: the header, one
      member per field in order, and the closing brace, each on its own line. */
  function ModelText(name: string, fs: seq<Field>): string
  {
    Unlines([Header(name)] + FieldTexts(fs) + [Closing])
  }

  /** The emission loop of `Model`. */
  method Model(obj: Object) returns (text: string)
    ensures text == ModelText(obj.name, obj.fields)
    ensures PlainNames(obj.name, obj.fields) ==>
              ParseModel(text) == Some(Description(obj.name, Columns(obj.fields)))
  {
    text := Header(obj.name) + "\n";
    assert text == Unlines([Header(obj.name)]);
    var i := 0;
    while i < |obj.fields|
      invariant 0 <= i <= |obj.fields|
      invariant text == Unlines([Header(obj.name)] + FieldTexts(obj.fields[..i]))
    {
      assert obj.fields[..i + 1] == obj.fields[..i] + [obj.fields[i]];
      HeadedSnoc(obj.name, obj.fields[..i], obj.fields[i]);
      text := text + FieldText(obj.fields[i]) + "\n";
      i := i + 1;
    }
    assert obj.fields[..i] == obj.fields;
    UnlinesSnoc([Header(obj.name)] + FieldTexts(obj.fields), Closing);
    text := text + Closing + "\n";
    if PlainNames(obj.name, obj.fields) {
      ModelTextParses(obj.name, obj.fields);
    }
  }

  // ---------------------------------------------------------------------------
  // ModelNonCustom
  // ---------------------------------------------------------------------------

  /** The fields that are not custom, in their original order. */
  function NonCustom(fs: seq<Field>): seq<Field>
  {
    if |fs| == 0 then []
    else NonCustom(fs[..|fs| - 1]) + (if fs[|fs| - 1].custom then [] else [fs[|fs| - 1]])
  }

  /** The emission loop of `ModelNonCustom`: custom fields are skipped. */
  method ModelNonCustom(obj: Object) returns (text: string)
    ensures text == ModelText(obj.name, NonCustom(obj.fields))
    ensures PlainNames(obj.name, obj.fields) ==>
              ParseModel(text) == Some(Description(obj.name, Columns(NonCustom(obj.fields))))
  {
    text := Header(obj.name) + "\n";
    assert text == Unlines([Header(obj.name)]);
    var i := 0;
    while i < |obj.fields|
      invariant 0 <= i <= |obj.fields|
      invariant text == Unlines([Header(obj.name)] + FieldTexts(NonCustom(obj.fields[..i])))
    {
      NonCustomSnoc(obj.fields, i);
      if obj.fields[i].custom {
        assert NonCustom(obj.fields[..i + 1]) == NonCustom(obj.fields[..i]);
        i := i + 1;
        continue;
      }
      assert NonCustom(obj.fields[..i + 1]) == NonCustom(obj.fields[..i]) + [obj.fields[i]];
      HeadedSnoc(obj.name, NonCustom(obj.fields[..i]), obj.fields[i]);
      text := text + FieldText(obj.fields[i]) + "\n";
      i := i + 1;
    }
    assert obj.fields[..i] == obj.fields;
    UnlinesSnoc([Header(obj.name)] + FieldTexts(NonCustom(obj.fields)), Closing);
    text := text + Closing + "\n";
    if PlainNames(obj.name, obj.fields) {
      NonCustomPlain(obj.fields);
      ModelTextParses(obj.name, NonCustom(obj.fields));
    }
  }

  lemma NonCustomSnoc(fs: seq<Field>, i: nat)
    requires i < |fs|
    ensures NonCustom(fs[..i + 1]) == NonCustom(fs[..i]) + (if fs[i].custom then [] else [fs[i]])
  {
    assert fs[..i + 1][..i] == fs[..i];
  }

  /** Filtering keeps exactly the non-custom fields. */
  lemma {:induction false} NonCustomMembers(fs: seq<Field>, f: Field)
    ensures f in NonCustom(fs) <==> f in fs && !f.custom
  {
    if |fs| > 0 {
      var init := fs[..|fs| - 1];
      NonCustomMembers(init, f);
      assert fs == init + [fs[|fs| - 1]];
    }
  }

  /** Filtering distributes over concatenation, so the survivors keep their
      relative order. */
  lemma {:induction false} NonCustomAppend(xs: seq<Field>, ys: seq<Field>)
    ensures NonCustom(xs + ys) == NonCustom(xs) + NonCustom(ys)
    decreases |ys|
  {
    if |ys| == 0 {
      assert xs + ys == xs;
    } else {
      var zs := xs + ys;
      assert zs[..|zs| - 1] == xs + ys[..|ys| - 1];
      NonCustomAppend(xs, ys[..|ys| - 1]);
    }
  }

  /** Without custom fields, both generators print the same text. */
  lemma {:induction false} NonCustomIdentity(fs: seq<Field>)
    requires forall i | 0 <= i < |fs| :: !fs[i].custom
    ensures NonCustom(fs) == fs
  {
    if |fs| > 0 {
      NonCustomIdentity(fs[..|fs| - 1]);
      assert fs[..|fs| - 1] + [fs[|fs| - 1]] == fs;
    }
  }

  /** Filtering twice is filtering once. */
  lemma {:induction false} NonCustomIdempotent(fs: seq<Field>)
    ensures NonCustom(NonCustom(fs)) == NonCustom(fs)
  {
    var r := NonCustom(fs);
    forall i | 0 <= i < |r|
      ensures !r[i].custom
    {
      NonCustomMembers(fs, r[i]);
    }
    NonCustomIdentity(r);
  }

  lemma {:induction false} NonCustomPlain(fs: seq<Field>)
    requires forall i | 0 <= i < |fs| :: PlainName(fs[i].name)
    ensures forall i | 0 <= i < |NonCustom(fs)| :: PlainName(NonCustom(fs)[i].name)
  {
    var r := NonCustom(fs);
    forall i | 0 <= i < |r|
      ensures PlainName(r[i].name)
    {
      NonCustomMembers(fs, r[i]);
    }
  }

  // ---------------------------------------------------------------------------
  // Reading the struct text back
  // ---------------------------------------------------------------------------

  /** What a member line tells: its name, Go type and whether it is required. */
  datatype Column = Column(name: string, goType: string, required: bool)

  /** What the whole text tells: the struct name and its members. */
  datatype Description = Description(name: string, columns: seq<Column>)

  function ColumnOf(f: Field): Column
  {
    Column(f.name, GetType(f.fieldType), f.required)
  }

  function Columns(fs: seq<Field>): (cs: seq<Column>)
    ensures |cs| == |fs|
  {
    seq(|fs|, i requires 0 <= i < |fs| => ColumnOf(fs[i]))
  }

  /** Names the text can be read back from: no tab, which separates the
      parts of a member line, and no line break. */
  predicate PlainName(name: string)
  {
    '\t' !in name && '\n' !in name
  }

  predicate PlainNames(name: string, fs: seq<Field>)
  {
    '\n' !in name && forall i | 0 <= i < |fs| :: PlainName(fs[i].name)
  }

  /** Splits text into its lines; None when the last line has no break. */
  function Lines(s: string): Option<seq<string>>
    decreases |s|
  {
    if |s| == 0 then Some([])
    else
      match SplitAtFirst(s, '\n')
      case None => None
      case Some(p) =>
        match Lines(p.1)
        case None => None
        case Some(ls) => Some([p.0] + ls)
  }

  function ParseHeader(line: string): Option<string>
  {
    match DropPrefix(line, "type ")
    case None => None
    case Some(r) =>
      if |r| >= |" struct{"| && r[|r| - |" struct{"|..] == " struct{" then Some(r[..|r| - |" struct{"|])
      else None
  }

  /** Reads a member line: name, tab, type, tab, then the tag, which must
      name the same field; its ",omitempty" tells whether it is required. */
  function ParseFieldText(line: string): Option<Column>
  {
    match SplitAtFirst(line, '\t')
    case None => None
    case Some(p) =>
      match SplitAtFirst(p.1, '\t')
      case None => None
      case Some(q) =>
        if q.1 == Tag(p.0, true) then Some(Column(p.0, q.0, true))
        else if q.1 == Tag(p.0, false) then Some(Column(p.0, q.0, false))
        else None
  }

  function ParseFieldTexts(ls: seq<string>): Option<seq<Column>>
  {
    if |ls| == 0 then Some([])
    else
      match ParseFieldText(ls[0])
      case None => None
      case Some(c) =>
        match ParseFieldTexts(ls[1..])
        case None => None
        case Some(cs) => Some([c] + cs)
  }

  /** Reads the whole struct text: header, member lines, closing brace. */
  function ParseModel(text: string): Option<Description>
  {
    match Lines(text)
    case None => None
    case Some(ls) =>
      if |ls| < 2 || ls[|ls| - 1] != Closing then None
      else
        match ParseHeader(ls[0])
        case None => None
        case Some(name) =>
          match ParseFieldTexts(ls[1..|ls| - 1])
          case None => None
          case Some(cs) => Some(Description(name, cs))
  }

  // ---------------------------------------------------------------------------
  // Round trip
  // ---------------------------------------------------------------------------

  lemma {:induction false} UnlinesCons(l: string, ls: seq<string>)
    ensures Unlines([l] + ls) == l + "\n" + Unlines(ls)
    decreases |ls|
  {
    if |ls| > 0 {
      var xs := [l] + ls;
      assert xs[..|xs| - 1] == [l] + ls[..|ls| - 1];
      UnlinesCons(l, ls[..|ls| - 1]);
    }
  }

  /** Lines free of line breaks are read back exactly. */
  lemma {:induction false} LinesUnlines(ls: seq<string>)
    requires forall i | 0 <= i < |ls| :: '\n' !in ls[i]
    ensures Lines(Unlines(ls)) == Some(ls)
    decreases |ls|
  {
    if |ls| > 0 {
      var tail := ls[1..];
      assert ls == [ls[0]] + tail;
      UnlinesCons(ls[0], tail);
      SplitAtFirstOf(ls[0], '\n', Unlines(tail));
      assert ls[0] + "\n" + Unlines(tail) == ls[0] + ['\n'] + Unlines(tail);
      LinesUnlines(tail);
    }
  }

  lemma ParseHeaderOf(name: string)
    ensures ParseHeader(Header(name)) == Some(name)
  {
    DropPrefixOf("type ", name + " struct{");
    assert Header(name) == "type " + (name + " struct{");
    var r := name + " struct{";
    assert r[|r| - |" struct{"|..] == " struct{";
    assert r[..|r| - |" struct{"|] == name;
  }

  /** The two tags of one name differ, so the tag tells whether the field is
      required. */
  lemma TagsDiffer(name: string)
    ensures Tag(name, true) != Tag(name, false)
  {
    assert |Tag(name, true)| < |Tag(name, false)|;
  }

  lemma ParseFieldTextOf(f: Field)
    requires '\t' !in f.name
    ensures ParseFieldText(FieldText(f)) == Some(ColumnOf(f))
  {
    var ty := GetType(f.fieldType);
    var tag := Tag(f.name, f.required);
    assert '\t' !in ty;
    assert FieldText(f) == f.name + ['\t'] + (ty + ['\t'] + tag);
    SplitAtFirstOf(f.name, '\t', ty + ['\t'] + tag);
    SplitAtFirstOf(ty, '\t', tag);
    TagsDiffer(f.name);
  }

  lemma ParseFieldTextsCons(t: string, ts: seq<string>, c: Column, cs: seq<Column>)
    requires ParseFieldText(t) == Some(c) && ParseFieldTexts(ts) == Some(cs)
    ensures ParseFieldTexts([t] + ts) == Some([c] + cs)
  {
    assert ([t] + ts)[1..] == ts;
  }

  lemma FieldsCons(fs: seq<Field>)
    requires |fs| > 0
    ensures FieldTexts(fs) == [FieldText(fs[0])] + FieldTexts(fs[1..])
    ensures Columns(fs) == [ColumnOf(fs[0])] + Columns(fs[1..])
  {
  }

  lemma {:induction false} ParseFieldTextsOf(fs: seq<Field>)
    requires forall i | 0 <= i < |fs| :: '\t' !in fs[i].name
    ensures ParseFieldTexts(FieldTexts(fs)) == Some(Columns(fs))
    decreases |fs|
  {
    if |fs| > 0 {
      ParseFieldTextOf(fs[0]);
      ParseFieldTextsOf(fs[1..]);
      ParseFieldTextsCons(FieldText(fs[0]), FieldTexts(fs[1..]), ColumnOf(fs[0]), Columns(fs[1..]));
      FieldsCons(fs);
    }
  }

  lemma FieldTextNoBreak(f: Field)
    requires PlainName(f.name)
    ensures '\n' !in FieldText(f)
  {
    assert '\n' !in GetType(f.fieldType);
    assert '\n' !in Tag(f.name, f.required);
  }

  lemma NoBreakInLines(name: string, fs: seq<Field>)
    requires PlainNames(name, fs)
    ensures var ls := [Header(name)] + FieldTexts(fs) + [Closing];
      forall i | 0 <= i < |ls| :: '\n' !in ls[i]
  {
    var ls := [Header(name)] + FieldTexts(fs) + [Closing];
    forall i | 0 <= i < |ls|
      ensures '\n' !in ls[i]
    {
      if 0 < i < |ls| - 1 {
        assert ls[i] == FieldText(fs[i - 1]);
        FieldTextNoBreak(fs[i - 1]);
      }
    }
  }

  /** The struct text gives back the object name and, for every field in
      order, its name, Go type and requiredness. */
  lemma ModelTextParses(name: string, fs: seq<Field>)
    requires PlainNames(name, fs)
    ensures ParseModel(ModelText(name, fs)) == Some(Description(name, Columns(fs)))
  {
    var ls := [Header(name)] + FieldTexts(fs) + [Closing];
    NoBreakInLines(name, fs);
    LinesUnlines(ls);
    ParseHeaderOf(name);
    assert ls[1..|ls| - 1] == FieldTexts(fs);
    ParseFieldTextsOf(fs);
  }

  /** Hence two objects print the same struct text only if they agree on the
      name and on every field's name, Go type and requiredness. */
  lemma ModelTextInjective(n1: string, fs1: seq<Field>, n2: string, fs2: seq<Field>)
    requires PlainNames(n1, fs1) && PlainNames(n2, fs2)
    ensures ModelText(n1, fs1) == ModelText(n2, fs2) <==> n1 == n2 && Columns(fs1) == Columns(fs2)
  {
    ModelTextParses(n1, fs1);
    ModelTextParses(n2, fs2);
    if n1 == n2 && Columns(fs1) == Columns(fs2) {
      assert FieldTexts(fs1) == FieldTexts(fs2) by {
        forall i | 0 <= i < |fs1|
          ensures FieldTexts(fs1)[i] == FieldTexts(fs2)[i]
        {
          assert ColumnOf(fs1[i]) == Columns(fs1)[i] == Columns(fs2)[i] == ColumnOf(fs2[i]);
        }
      }
    }
  }

  /** A field list with no custom field prints the same under both
      generators. */
  lemma NoCustomFieldsSameModel(obj: Object)
    requires forall i | 0 <= i < |obj.fields| :: !obj.fields[i].custom
    ensures ModelText(obj.name, NonCustom(obj.fields)) == ModelText(obj.name, obj.fields)
  {
    NonCustomIdentity(obj.fields);
  }
}
