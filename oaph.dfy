/**
 The `OpenApiPlaceHolder` builder: a store of named text blocks and of
 schema definitions, filled by `query_params` and `schema` and consumed by
 `render_to`, which substitutes each `{{name}}` token of a template by its
 block, re-indented at the column where the token stands.
 */
module Oaph {
  import opened Prelude
  import opened Text
  import opened Schemars

  /** The placeholder under which `render_to` stores the serialised definitions. */
  const Reserved := "oaph::definitions"

  /** The text whose lines are removed from a parameter's schema block. */
  const Description := "description:"

  /** The column of a parameter's schema block under its `schema:` key. */
  const SchemaIndent := "    "

  // ---------------------------------------------------------------- with_indent

  /** `with_indent`: every line of `value` except the first gets `indent` in front. */
  function WithIndent(indent: string, value: string): string
  {
    var lines := Split(value);
    Join(seq(|lines|, i requires 0 <= i < |lines| => if i == 0 then lines[i] else indent + lines[i]), "\n")
  }

  lemma NoNewlineConcat(a: string, b: string)
    requires '\n' !in a && '\n' !in b
    ensures '\n' !in a + b
  {
    forall i | 0 <= i < |a + b| ensures (a + b)[i] != '\n' {
      if i < |a| { assert (a + b)[i] == a[i]; } else { assert (a + b)[i] == b[i - |a|]; }
    }
  }

  /** The lines of `with_indent(indent, value)` are those of `value`, as many,
      the first unchanged and every later one with `indent` in front. */
  lemma WithIndentLines(indent: string, value: string)
    requires '\n' !in indent
    ensures |Split(WithIndent(indent, value))| == |Split(value)|
    ensures Split(WithIndent(indent, value))[0] == Split(value)[0]
    ensures forall k :: 1 <= k < |Split(value)| ==>
      Split(WithIndent(indent, value))[k] == indent + Split(value)[k]
  {
    var lines := Split(value);
    var indented := seq(|lines|, i requires 0 <= i < |lines| => if i == 0 then lines[i] else indent + lines[i]);
    forall i | 0 <= i < |indented| ensures '\n' !in indented[i] {
      if i > 0 { NoNewlineConcat(indent, lines[i]); }
    }
    SplitJoin(indented);
  }

  /** A single-line value is left as it is. */
  lemma WithIndentSingleLine(indent: string, value: string)
    requires '\n' !in value
    ensures WithIndent(indent, value) == value
  {
    SplitSingle(value);
  }

  /** With an empty indent nothing changes. */
  lemma WithIndentEmpty(value: string)
    ensures WithIndent("", value) == value
  {
    var lines := Split(value);
    var indented := seq(|lines|, i requires 0 <= i < |lines| => if i == 0 then lines[i] else "" + lines[i]);
    forall i | 0 <= i < |lines| ensures indented[i] == lines[i] {
      assert "" + lines[i] == lines[i];
    }
    assert indented == lines;
    JoinSplit(value);
  }

  lemma {:induction false} JoinPrefix(a: string, pieces: seq<string>, sep: string)
    requires |pieces| >= 1
    ensures a + Join(pieces, sep) == Join([a + pieces[0]] + pieces[1..], sep)
  {
    if |pieces| > 1 {
      JoinCons(pieces[0], pieces[1..], sep);
      JoinCons(a + pieces[0], pieces[1..], sep);
    }
  }

  /** Written after `indent`, the re-indented value is the whole value indented:
      each of its lines with `indent` in front.  This is what places a block at
      the column of its key or token. */
  lemma IndentBlock(indent: string, value: string)
    requires '\n' !in indent
    ensures var lines := Split(value);
      Split(indent + WithIndent(indent, value)) == seq(|lines|, k requires 0 <= k < |lines| => indent + lines[k])
  {
    var lines := Split(value);
    var indented := seq(|lines|, i requires 0 <= i < |lines| => if i == 0 then lines[i] else indent + lines[i]);
    var all := seq(|lines|, k requires 0 <= k < |lines| => indent + lines[k]);
    JoinPrefix(indent, indented, "\n");
    assert [indent + indented[0]] + indented[1..] == all;
    forall i | 0 <= i < |all| ensures '\n' !in all[i] {
      NoNewlineConcat(indent, lines[i]);
    }
    SplitJoin(all);
  }

  // ---------------------------------------------------------------- query_params

  /** The `required` value of a parameter: "false" for a schema object with a
      `nullable` extension and for any other kind of schema. */
  function Required(schema: Schema): (r: string)
    ensures r == "true" <==> schema.Object? && !schema.o.nullable
    ensures r == "false" <==> !(schema.Object? && !schema.o.nullable)
  {
    match schema
    case Object(o) => if o.nullable then "false" else "true"
    case Bool(_) => "false"
  }

  /** The description of a parameter: its schema object's, none for other kinds. */
  function PropertyDescription(schema: Schema): Option<string>
  {
    match schema
    case Object(o) => o.description
    case Bool(_) => None
  }

  /** The lines of `lines` that do not contain `description:`, in order. */
  function KeepLines(lines: seq<string>): (r: seq<string>)
    ensures forall i :: 0 <= i < |r| ==> r[i] in lines && !Contains(r[i], Description)
    ensures forall l :: l in lines && !Contains(l, Description) ==> l in r
  {
    if |lines| == 0 then []
    else
      var rest := KeepLines(lines[1..]);
      assert forall l :: l in lines[1..] ==> l in lines;
      if Contains(lines[0], Description) then rest else [lines[0]] + rest
  }

  /** The serialised schema with every line containing `description:` removed. */
  function DropDescriptionLines(yaml: string): string
  {
    Join(KeepLines(Split(yaml)), "\n")
  }

  /** No line of the filtered block contains `description:`, and every line of
      the input that does not is still there. */
  lemma DropDescriptionLinesFilters(yaml: string)
    ensures forall i :: 0 <= i < |Split(DropDescriptionLines(yaml))| ==>
      !Contains(Split(DropDescriptionLines(yaml))[i], Description)
    ensures forall l :: l in Split(yaml) && !Contains(l, Description) ==> l in Split(DropDescriptionLines(yaml))
  {
    var kept := KeepLines(Split(yaml));
    if |kept| == 0 {
      assert Split("") == [""];
      assert !Contains("", Description);
    } else {
      SplitJoin(kept);
    }
  }

  /** `description:` does not start inside leading blanks. */
  lemma BlanksContain(line: string)
    requires Contains(SchemaIndent + line, Description)
    ensures Contains(line, Description)
  {
    var s := SchemaIndent + line;
    var j := Find(s, Description).value;
    assert s[j] == Description[0] == 'd';
    assert j >= |SchemaIndent|;
    assert line[j - 4..j - 4 + |Description|] == s[j..j + |Description|];
    OccurrenceContains(line, Description, j - 4);
  }

  /** A parameter's schema block as spliced under its `schema:` key. */
  function SchemaBlock(yaml: string): string
  {
    SchemaIndent + WithIndent(SchemaIndent, DropDescriptionLines(yaml))
  }

  /** Every line of the spliced schema block stands four columns in and none
      contains `description:`. */
  lemma SchemaBlockLines(yaml: string)
    ensures var lines := Split(SchemaBlock(yaml));
      forall k :: 0 <= k < |lines| ==>
        |lines[k]| >= |SchemaIndent| && lines[k][..|SchemaIndent|] == SchemaIndent && !Contains(lines[k], Description)
  {
    var block := DropDescriptionLines(yaml);
    IndentBlock(SchemaIndent, block);
    DropDescriptionLinesFilters(yaml);
    var lines := Split(SchemaBlock(yaml));
    forall k | 0 <= k < |lines|
      ensures |lines[k]| >= |SchemaIndent| && lines[k][..|SchemaIndent|] == SchemaIndent && !Contains(lines[k], Description)
    {
      assert lines[k] == SchemaIndent + Split(block)[k];
      if Contains(lines[k], Description) {
        BlanksContain(Split(block)[k]);
      }
    }
  }

  /** The lines of a parameter entry before its schema block: `- in: query`,
      the name, the trimmed description when there is one, `required` and the
      `schema:` key. */
  function HeadLines(name: string, schema: Schema): seq<string>
  {
    ["- in: query", "  name: " + name]
      + (match PropertyDescription(schema) case None => [] case Some(text) => ["  description: " + Trim(text)])
      + ["  required: " + Required(schema), "  schema:"]
  }

  /** Each line followed by a newline. */
  function Terminated(lines: seq<string>): string
  {
    if |lines| == 0 then "" else lines[0] + "\n" + Terminated(lines[1..])
  }

  /** Splitting newline-terminated lines followed by `rest` gives the lines and
      then the lines of `rest`. */
  lemma {:induction false} SplitTerminated(lines: seq<string>, rest: string)
    requires forall line :: line in lines ==> '\n' !in line
    ensures Split(Terminated(lines) + rest) == lines + Split(rest)
  {
    var pieces := Split(rest);
    JoinSplit(rest);
    TerminatedJoin(lines, pieces);
    var all := lines + pieces;
    assert forall i :: 0 <= i < |all| ==> '\n' !in all[i] by {
      forall i | 0 <= i < |all| ensures '\n' !in all[i] {
        if i < |lines| { assert all[i] == lines[i] && lines[i] in lines; } else { assert all[i] == pieces[i - |lines|]; }
      }
    }
    SplitJoin(all);
  }

  /** Terminated lines followed by joined pieces are all of them joined. */
  lemma {:induction false} TerminatedJoin(lines: seq<string>, pieces: seq<string>)
    requires |pieces| >= 1
    ensures Terminated(lines) + Join(pieces, "\n") == Join(lines + pieces, "\n")
    decreases |lines|
  {
    if |lines| == 0 {
      assert lines + pieces == pieces;
    } else {
      TerminatedJoin(lines[1..], pieces);
      JoinCons(lines[0], lines[1..] + pieces, "\n");
      assert [lines[0]] + (lines[1..] + pieces) == lines + pieces;
    }
  }

  /** The `- in: query` entry that `query_params` emits for one property. */
  function ParameterEntry(p: Property, serde: Serializable -> Option<string>): (r: Result<string, Error>)
    ensures r.Ok? <==> serde(SchemaValue(p.schema)).Some?
    ensures r.Err? ==> r.error == YamlError
  {
    match ToYaml(serde, SchemaValue(p.schema))
    case Err(e) => Err(e)
    case Ok(yaml) => Ok(Terminated(HeadLines(p.name, p.schema)) + SchemaBlock(yaml))
  }

  /** The lines the description takes up in an entry: none without a
      description, otherwise the lines of `  description: ` and the trimmed
      description, which keeps any line breaks of its own. */
  function DescriptionLines(schema: Schema): seq<string>
  {
    match PropertyDescription(schema)
    case None => []
    case Some(text) => Split("  description: " + Trim(text))
  }

  /** The terminated lines of `x + y` are those of `x` followed by those of `y`. */
  lemma {:induction false} TerminatedAppend(x: seq<string>, y: seq<string>)
    ensures Terminated(x + y) == Terminated(x) + Terminated(y)
    decreases |x|
  {
    if |x| == 0 {
      assert x + y == y && "" + Terminated(y) == Terminated(y);
    } else {
      assert (x + y)[0] == x[0] && (x + y)[1..] == x[1..] + y;
      TerminatedAppend(x[1..], y);
      AppendAssoc(x[0] + "\n", Terminated(x[1..]), Terminated(y));
    }
  }

  /** The terminated head lines followed by the block, written out around the
      first two line breaks. */
  lemma HeadText(first: string, second: string, middle: seq<string>, last: seq<string>, block: string)
    ensures Terminated([first, second] + middle + last) + block
      == first + "\n" + (second + "\n" + (Terminated(middle) + (Terminated(last) + block)))
  {
    TerminatedAppend([first, second] + middle, last);
    TerminatedAppend([first, second], middle);
    assert [first, second][1..] == [second] && [second][1..] == [];
    assert Terminated([first, second]) == first + "\n" + (second + "\n" + "");
    var rest := Terminated(middle) + (Terminated(last) + block);
    AppendAssoc(Terminated([first, second]) + Terminated(middle), Terminated(last), block);
    AppendAssoc(Terminated([first, second]), Terminated(middle), Terminated(last) + block);
    AppendAssoc(first + "\n", second + "\n" + "", rest);
    AppendAssoc(second + "\n", "", rest);
    assert "" + rest == rest;
  }

  /** An optional middle line, terminated, splits into its own lines. */
  lemma MiddleSplit(middle: seq<string>, tail: string)
    requires |middle| <= 1
    ensures Split(Terminated(middle) + tail) == (if |middle| == 0 then [] else Split(middle[0])) + Split(tail)
  {
    if |middle| == 0 {
      assert Terminated(middle) + tail == tail;
    } else {
      assert middle[1..] == [];
      AppendAssoc(middle[0] + "\n", "", tail);
      assert "" + tail == tail;
      SplitConcat(middle[0], tail);
    }
  }

  /** Splitting the head lines of the format string, each terminated, followed
      by the block: the first line stays, the second and the optional third are
      split where they contain line breaks, and the newline-free last lines stay. */
  lemma SplitHead(first: string, second: string, middle: seq<string>, last: seq<string>, block: string)
    requires '\n' !in first && |middle| <= 1
    requires forall line :: line in last ==> '\n' !in line
    ensures Split(Terminated([first, second] + middle + last) + block)
      == [first] + Split(second) + (if |middle| == 0 then [] else Split(middle[0])) + last + Split(block)
  {
    var tail := Terminated(last) + block;
    var rest := Terminated(middle) + tail;
    var middleLines := if |middle| == 0 then [] else Split(middle[0]);
    HeadText(first, second, middle, last, block);
    SplitTerminated(last, block);
    MiddleSplit(middle, tail);
    SplitConcat(first, second + "\n" + rest);
    SplitConcat(second, rest);
    SplitSingle(first);
    AppendAssoc([first], Split(second), middleLines + (last + Split(block)));
    AppendAssoc([first] + Split(second), middleLines, last + Split(block));
    AppendAssoc([first] + Split(second) + middleLines, last, Split(block));
  }

  /** The terminated head lines followed by a block, split into lines. */
  lemma HeadLinesSplit(name: string, schema: Schema, block: string)
    ensures Split(Terminated(HeadLines(name, schema)) + block)
      == ["- in: query"] + Split("  name: " + name) + DescriptionLines(schema)
        + ["  required: " + Required(schema), "  schema:"] + Split(block)
  {
    var last := ["  required: " + Required(schema), "  schema:"];
    assert forall line :: line in last ==> '\n' !in line by {
      HeadLiteralsSingle();
      NoNewlineConcat("  required: ", Required(schema));
    }
    HeadLiteralsSingle();
    HeadLinesParts(name, schema);
    match PropertyDescription(schema)
    case None =>
      SplitHead("- in: query", "  name: " + name, [], last, block);
    case Some(text) =>
      SplitHead("- in: query", "  name: " + name, ["  description: " + Trim(text)], last, block);
  }

  /** The layout of an entry, line by line: `- in: query`, the lines of the name
      line, the lines of the description when there is one, `required`,
      `schema:` and then the lines of the schema block. */
  lemma EntryLines(p: Property, serde: Serializable -> Option<string>)
    requires ParameterEntry(p, serde).Ok?
    ensures Split(ParameterEntry(p, serde).value)
      == ["- in: query"] + Split("  name: " + p.name) + DescriptionLines(p.schema)
        + ["  required: " + Required(p.schema), "  schema:"] + Split(SchemaBlock(ToYaml(serde, SchemaValue(p.schema)).value))
  {
    var block := SchemaBlock(ToYaml(serde, SchemaValue(p.schema)).value);
    assert ParameterEntry(p, serde).value == Terminated(HeadLines(p.name, p.schema)) + block;
    HeadLinesSplit(p.name, p.schema, block);
  }

  /** The fixed text of the head lines holds no line break. */
  lemma HeadLiteralsSingle()
    ensures '\n' !in "- in: query" && '\n' !in "  name: " && '\n' !in "  description: "
    ensures '\n' !in "  required: " && '\n' !in "  schema:"
  {
  }

  /** The head lines as the fixed first two, the optional description and the fixed last two. */
  lemma HeadLinesParts(name: string, schema: Schema)
    ensures PropertyDescription(schema).None? ==>
      HeadLines(name, schema) == ["- in: query", "  name: " + name] + [] + ["  required: " + Required(schema), "  schema:"]
    ensures PropertyDescription(schema).Some? ==>
      HeadLines(name, schema) == ["- in: query", "  name: " + name]
        + ["  description: " + Trim(PropertyDescription(schema).value)] + ["  required: " + Required(schema), "  schema:"]
  {
  }

  /** A description line is never a `required` line. */
  lemma DescriptionIsNotRequired(text: string, required: string)
    ensures "  description: " + text != "  required: " + required
  {
    assert ("  description: " + text)[2] == 'd';
    assert ("  required: " + required)[2] == 'r';
  }

  lemma ThirdLine(first: string, second: string, middle: seq<string>, last: seq<string>, rest: seq<string>)
    requires |last| >= 1
    ensures |[first] + [second] + middle + last + rest| == 2 + |middle| + |last| + |rest|
    ensures ([first] + [second] + middle + last + rest)[2] == if |middle| == 0 then last[0] else middle[0]
  {
  }

  /** The third line of the split head lines: the first description line, or `required`. */
  lemma DescriptionThird(name: string, schema: Schema, block: string)
    requires '\n' !in name
    ensures |Split(Terminated(HeadLines(name, schema)) + block)| >= 5
    ensures PropertyDescription(schema).Some? ==>
      Split(Terminated(HeadLines(name, schema)) + block)[2]
        == "  description: " + Split(Trim(PropertyDescription(schema).value))[0]
    ensures PropertyDescription(schema).None? ==>
      Split(Terminated(HeadLines(name, schema)) + block)[2] == "  required: " + Required(schema)
  {
    var nameLine := "  name: " + name;
    HeadLinesSplit(name, schema, block);
    HeadLiteralsSingle();
    NoNewlineConcat("  name: ", name);
    SplitSingle(nameLine);
    ThirdLine("- in: query", nameLine, DescriptionLines(schema), ["  required: " + Required(schema), "  schema:"], Split(block));
    if PropertyDescription(schema).Some? {
      SplitPrefix("  description: ", Trim(PropertyDescription(schema).value));
    }
  }

  /** For a name without line breaks, the third line of an entry starts the
      description exactly when the schema object has one: it is `  description: `
      and the first line of the trimmed description, which is all of it when it
      has no line break. Otherwise the third line is the `required` line. */
  lemma EntryDescription(p: Property, serde: Serializable -> Option<string>)
    requires ParameterEntry(p, serde).Ok?
    requires '\n' !in p.name
    ensures |Split(ParameterEntry(p, serde).value)| >= 5
    ensures var lines := Split(ParameterEntry(p, serde).value);
      p.schema.Object? && p.schema.o.description.Some? ==>
        lines[2] == "  description: " + Split(Trim(p.schema.o.description.value))[0]
    ensures var lines := Split(ParameterEntry(p, serde).value);
      p.schema.Object? && p.schema.o.description.Some? && '\n' !in Trim(p.schema.o.description.value) ==>
        lines[2] == "  description: " + Trim(p.schema.o.description.value)
    ensures var lines := Split(ParameterEntry(p, serde).value);
      lines[2] == "  required: " + Required(p.schema) <==> !(p.schema.Object? && p.schema.o.description.Some?)
  {
    var block := SchemaBlock(ToYaml(serde, SchemaValue(p.schema)).value);
    assert ParameterEntry(p, serde).value == Terminated(HeadLines(p.name, p.schema)) + block;
    DescriptionThird(p.name, p.schema, block);
    if PropertyDescription(p.schema).Some? {
      var trimmed := Trim(PropertyDescription(p.schema).value);
      DescriptionIsNotRequired(Split(trimmed)[0], Required(p.schema));
      if '\n' !in trimmed {
        SplitSingle(trimmed);
      }
    }
  }

  /** The entries `entry` gives for the properties, in order, stopping at the
      first error. */
  function Collect(props: seq<Property>, entry: Property -> Result<string, Error>): Result<seq<string>, Error>
    decreases |props|
  {
    if |props| == 0 then Ok([])
    else
      match Collect(props[..|props| - 1], entry)
      case Err(e) => Err(e)
      case Ok(entries) =>
        match entry(props[|props| - 1])
        case Err(e) => Err(e)
        case Ok(last) => Ok(entries + [last])
  }

  /** Collecting gives one entry per property, in order, and fails exactly when
      some property's entry fails, with the error of the first that does. */
  lemma {:induction false} CollectPerProperty(props: seq<Property>, entry: Property -> Result<string, Error>)
    ensures Collect(props, entry).Ok? ==>
      |Collect(props, entry).value| == |props|
      && forall i :: 0 <= i < |props| ==> entry(props[i]) == Ok(Collect(props, entry).value[i])
    ensures Collect(props, entry).Err? ==>
      exists i :: 0 <= i < |props| && entry(props[i]) == Err(Collect(props, entry).error)
        && (forall j :: 0 <= j < i ==> entry(props[j]).Ok?)
    ensures (exists i :: 0 <= i < |props| && entry(props[i]).Err?) ==> Collect(props, entry).Err?
    decreases |props|
  {
    if |props| > 0 {
      var init := props[..|props| - 1];
      var last := props[|props| - 1];
      CollectPerProperty(init, entry);
      assert forall i :: 0 <= i < |init| ==> init[i] == props[i];
      match Collect(init, entry)
      case Err(e) =>
        assert Collect(props, entry) == Err(e);
      case Ok(entries) =>
        match entry(last)
        case Err(e) =>
          assert Collect(props, entry) == Err(e);
          assert entry(props[|props| - 1]) == Err(e);
        case Ok(x) =>
          var all := entries + [x];
          assert Collect(props, entry) == Ok(all);
          forall i | 0 <= i < |props| ensures entry(props[i]) == Ok(all[i]) {
            if i < |init| {
              assert init[i] == props[i] && all[i] == entries[i];
            } else {
              assert props[i] == last && all[i] == x;
            }
          }
    }
  }

  lemma CollectSnoc(props: seq<Property>, p: Property, entry: Property -> Result<string, Error>)
    ensures Collect(props + [p], entry) ==
      match Collect(props, entry)
      case Err(e) => Err(e)
      case Ok(entries) => (match entry(p) case Err(e) => Err(e) case Ok(x) => Ok(entries + [x]))
  {
    assert (props + [p])[..|props|] == props;
  }

  /** One step of collecting: an entry that succeeds extends the list by
      itself; the first one that fails is the error of the whole list. */
  lemma CollectStep(props: seq<Property>, i: nat, entry: Property -> Result<string, Error>, result: seq<string>)
    requires i < |props| && Collect(props[..i], entry) == Ok(result)
    ensures entry(props[i]).Ok? ==> Collect(props[..i + 1], entry) == Ok(result + [entry(props[i]).value])
    ensures entry(props[i]).Err? ==> Collect(props, entry) == Err(entry(props[i]).error)
  {
    assert props[..i + 1] == props[..i] + [props[i]];
    CollectSnoc(props[..i], props[i], entry);
    if entry(props[i]).Err? {
      CollectErrorStays(props, i + 1, entry);
    }
  }

  /** Once a prefix fails, the whole list fails with the same error. */
  lemma {:induction false} CollectErrorStays(props: seq<Property>, n: nat, entry: Property -> Result<string, Error>)
    requires n <= |props| && Collect(props[..n], entry).Err?
    ensures Collect(props, entry) == Collect(props[..n], entry)
    decreases |props|
  {
    if n == |props| {
      assert props[..n] == props;
    } else {
      var init := props[..|props| - 1];
      assert init[..n] == props[..n];
      CollectErrorStays(init, n, entry);
    }
  }

  /** The entries `query_params` collects for the properties. */
  function Entries(props: seq<Property>, serde: Serializable -> Option<string>): Result<seq<string>, Error>
  {
    Collect(props, p => ParameterEntry(p, serde))
  }

  /** One entry per property, in property order; and the entries fail, with a
      serialisation error, exactly when some property's schema fails to serialise. */
  lemma EntriesPerProperty(props: seq<Property>, serde: Serializable -> Option<string>)
    ensures Entries(props, serde).Ok? ==>
      |Entries(props, serde).value| == |props|
      && forall i :: 0 <= i < |props| ==> ParameterEntry(props[i], serde) == Ok(Entries(props, serde).value[i])
    ensures Entries(props, serde).Err? <==> exists i :: 0 <= i < |props| && serde(SchemaValue(props[i].schema)).None?
    ensures Entries(props, serde).Err? ==> Entries(props, serde).error == YamlError
  {
    var entry := p => ParameterEntry(p, serde);
    CollectPerProperty(props, entry);
    if Entries(props, serde).Err? {
      var i :| 0 <= i < |props| && entry(props[i]) == Err(Entries(props, serde).error);
      assert serde(SchemaValue(props[i].schema)).None?;
    }
    if exists i :: 0 <= i < |props| && serde(SchemaValue(props[i].schema)).None? {
      var i :| 0 <= i < |props| && serde(SchemaValue(props[i].schema)).None?;
      assert entry(props[i]).Err?;
    }
  }

  /** The text `query_params` stores: the entries joined by newlines, or an
      error for a schema without object validation. */
  function QueryParameters(root: SchemaObject, serde: Serializable -> Option<string>): (r: Result<string, Error>)
    ensures root.properties.None? ==> r == Err(Unsupported(OnlyObjectTypeSupported))
  {
    match root.properties
    case None => Err(Unsupported(OnlyObjectTypeSupported))
    case Some(props) =>
      match Entries(props, serde)
      case Err(e) => Err(e)
      case Ok(entries) => Ok(Join(entries, "\n"))
  }

  /** `query_params` succeeds exactly for an object schema whose every property
      serialises; its text is then one entry per property, in property order,
      joined by newlines.  It fails with the `bail!` message for a schema
      without object validation and with a serialisation error otherwise. */
  lemma QueryParametersResult(root: SchemaObject, serde: Serializable -> Option<string>)
    ensures QueryParameters(root, serde).Ok? <==>
      root.properties.Some? && forall i :: 0 <= i < |root.properties.value| ==>
        serde(SchemaValue(root.properties.value[i].schema)).Some?
    ensures QueryParameters(root, serde).Ok? ==>
      var props := root.properties.value;
      exists entries: seq<string> ::
        && |entries| == |props|
        && QueryParameters(root, serde).value == Join(entries, "\n")
        && forall i :: 0 <= i < |props| ==> ParameterEntry(props[i], serde) == Ok(entries[i])
    ensures QueryParameters(root, serde).Err? && root.properties.Some? ==>
      QueryParameters(root, serde).error == YamlError
  {
    if root.properties.Some? {
      var props := root.properties.value;
      EntriesPerProperty(props, serde);
      if Entries(props, serde).Ok? {
        var entries := Entries(props, serde).value;
        assert QueryParameters(root, serde).value == Join(entries, "\n");
      }
    }
  }

  // ---------------------------------------------------------------- render_to

  /** The token `{{key}}` that stands for a placeholder in a template. */
  function Pattern(key: string): string
  {
    "{{" + key + "}}"
  }

  /** One line of a pass for `key`: a line without the token is kept as it is;
      otherwise every token is replaced by the value re-indented by the text
      before the first token, and trailing whitespace is trimmed. */
  function RenderLine(line: string, key: string, value: string): (r: string)
    ensures !Contains(line, Pattern(key)) ==> r == line
    ensures Contains(line, Pattern(key)) ==> |r| == 0 || !IsWhitespace(r[|r| - 1])
  {
    var pattern := Pattern(key);
    match Find(line, pattern)
    case None => line
    case Some(position) => TrimEnd(ReplaceAll(line, pattern, WithIndent(line[..position], value)))
  }

  /** On a line with the token: the indent is the text before the first token
      and holds none; the line is cut at every token; and the result is the
      pieces rejoined by the re-indented value, right-trimmed. */
  lemma RenderLineReplaces(line: string, key: string, value: string)
    requires Contains(line, Pattern(key))
    ensures var pattern := Pattern(key);
      var position := Find(line, pattern).value;
      var indent := line[..position];
      && line == indent + pattern + line[position + |pattern|..]
      && !Contains(indent, pattern)
      && Join(Fields(line, pattern), pattern) == line
      && (forall i :: 0 <= i < |Fields(line, pattern)| ==> !Contains(Fields(line, pattern)[i], pattern))
      && RenderLine(line, key, value) == TrimEnd(Join(Fields(line, pattern), WithIndent(indent, value)))
  {
    var pattern := Pattern(key);
    var position := Find(line, pattern).value;
    assert line[position..position + |pattern|] == pattern;
    assert line == line[..position] + line[position..position + |pattern|] + line[position + |pattern|..];
    BeforeFirst(line, pattern, position);
    FieldsJoin(line, pattern);
    FieldsFree(line, pattern);
    ReplaceAllJoinsFields(line, pattern, WithIndent(line[..position], value));
  }

  /** On a line with a single token, the value takes the token's place and its
      later lines start at the token's column (see `IndentBlock`). */
  lemma RenderLineOneToken(line: string, key: string, value: string)
    requires Contains(line, Pattern(key))
    requires var pattern := Pattern(key);
      !Contains(line[Find(line, pattern).value + |pattern|..], pattern)
    ensures var pattern := Pattern(key);
      var position := Find(line, pattern).value;
      RenderLine(line, key, value)
        == TrimEnd(line[..position] + WithIndent(line[..position], value) + line[position + |pattern|..])
  {
    var pattern := Pattern(key);
    var position := Find(line, pattern).value;
    ReplaceOnce(line, pattern, WithIndent(line[..position], value), position);
  }

  /** One pass of `render_to` for `key`: every line rendered, then rejoined. */
  function RenderPass(text: string, key: string, value: string): string
  {
    var lines := Split(text);
    Join(seq(|lines|, i requires 0 <= i < |lines| => RenderLine(lines[i], key, value)), "\n")
  }

  lemma {:induction false} PieceContains(pieces: seq<string>, sep: string, i: nat, pat: string)
    requires i < |pieces| && Contains(pieces[i], pat)
    ensures Contains(Join(pieces, sep), pat)
    decreases |pieces|
  {
    if |pieces| > 1 {
      if i == 0 {
        ContainsBefore(pieces[0], sep, pat);
        ContainsBefore(pieces[0] + sep, Join(pieces[1..], sep), pat);
      } else {
        PieceContains(pieces[1..], sep, i - 1, pat);
        ContainsAfter(pieces[0] + sep, Join(pieces[1..], sep), pat);
      }
    }
  }

  /** A text without the token of `key` passes through the pass for `key` unchanged. */
  lemma RenderPassAbsent(text: string, key: string, value: string)
    requires !Contains(text, Pattern(key))
    ensures RenderPass(text, key, value) == text
  {
    var lines := Split(text);
    JoinSplit(text);
    forall i | 0 <= i < |lines| ensures RenderLine(lines[i], key, value) == lines[i] {
      if Contains(lines[i], Pattern(key)) {
        PieceContains(lines, "\n", i, Pattern(key));
      }
    }
    assert seq(|lines|, i requires 0 <= i < |lines| => RenderLine(lines[i], key, value)) == lines;
  }

  /** A template that is just the token renders as the value, right-trimmed:
      the token's indent is empty. */
  lemma RenderPassSoleToken(key: string, value: string)
    requires '\n' !in key
    ensures RenderPass(Pattern(key), key, value) == TrimEnd(value)
  {
    var pattern := Pattern(key);
    assert '\n' !in pattern by {
      NoNewlineConcat("{{", key);
      NoNewlineConcat("{{" + key, "}}");
    }
    SplitSingle(pattern);
    assert pattern[0..|pattern|] == pattern;
    assert FindFrom(pattern, pattern, 0) == Some(0);
    assert Find(pattern, pattern) == Some(0);
    WithIndentEmpty(value);
    var indent := pattern[..0];
    assert indent == "";
    var rest := pattern[|pattern|..];
    assert rest == "";
    assert Find(rest, pattern).None?;
    assert ReplaceAll(rest, pattern, value) == "";
    assert ReplaceAll(pattern, pattern, value) == indent + value + ReplaceAll(rest, pattern, value);
    assert ReplaceAll(pattern, pattern, value) == value;
    assert RenderLine(pattern, key, value) == TrimEnd(value);
    var rendered := seq(1, i requires 0 <= i < 1 => RenderLine([pattern][i], key, value));
    assert rendered == [TrimEnd(value)];
  }

  /** A line of the text without the token of `key` is still a line of the
      text after the pass for `key`, even where other lines gain newlines. */
  lemma RenderPassKeepsLine(text: string, key: string, value: string, line: string)
    requires line in Split(text) && !Contains(line, Pattern(key))
    ensures line in Split(RenderPass(text, key, value))
  {
    var lines := Split(text);
    var j :| 0 <= j < |lines| && lines[j] == line;
    var rendered := seq(|lines|, i requires 0 <= i < |lines| => RenderLine(lines[i], key, value));
    assert rendered[j] == line;
    JoinPieceInSplit(rendered, j);
  }

  /** The passes of `render_to` over `keys`, in that order. */
  function RenderAll(text: string, ph: map<string, string>, keys: seq<string>): string
    requires forall i :: 0 <= i < |keys| ==> keys[i] in ph
    decreases |keys|
  {
    if |keys| == 0 then text
    else
      var last := keys[|keys| - 1];
      RenderPass(RenderAll(text, ph, keys[..|keys| - 1]), last, ph[last])
  }

  /** Passes run one after another: rendering `a + b` is rendering `a`, then `b`. */
  lemma {:induction false} RenderAllAppend(text: string, ph: map<string, string>, a: seq<string>, b: seq<string>)
    requires forall i :: 0 <= i < |a| ==> a[i] in ph
    requires forall i :: 0 <= i < |b| ==> b[i] in ph
    ensures forall i :: 0 <= i < |a + b| ==> (a + b)[i] in ph
    ensures RenderAll(text, ph, a + b) == RenderAll(RenderAll(text, ph, a), ph, b)
    decreases |b|
  {
    assert forall i :: 0 <= i < |a + b| ==> (a + b)[i] in ph by {
      forall i | 0 <= i < |a + b| ensures (a + b)[i] in ph {
        if i < |a| { assert (a + b)[i] == a[i]; } else { assert (a + b)[i] == b[i - |a|]; }
      }
    }
    if |b| == 0 {
      assert a + b == a;
    } else {
      var init := b[..|b| - 1];
      RenderAllAppend(text, ph, a, init);
      assert (a + b)[..|a + b| - 1] == a + init;
    }
  }

  /** A template with none of the tokens of `keys` is left as it is: in particular
      a token `{{name}}` for a name never stored survives verbatim. */
  lemma {:induction false} RenderAllAbsent(text: string, ph: map<string, string>, keys: seq<string>)
    requires forall i :: 0 <= i < |keys| ==> keys[i] in ph
    requires forall i :: 0 <= i < |keys| ==> !Contains(text, Pattern(keys[i]))
    ensures RenderAll(text, ph, keys) == text
    decreases |keys|
  {
    if |keys| > 0 {
      var last := keys[|keys| - 1];
      RenderAllAbsent(text, ph, keys[..|keys| - 1]);
      RenderPassAbsent(text, last, ph[last]);
    }
  }

  /** A line of the template that holds none of the tokens of `keys` is a line
      of the rendered text, whatever the order of the passes: a line with a
      token `{{name}}` for a name never stored survives verbatim. */
  lemma {:induction false} RenderAllKeepsLine(text: string, ph: map<string, string>, keys: seq<string>, line: string)
    requires forall i :: 0 <= i < |keys| ==> keys[i] in ph
    requires line in Split(text)
    requires forall i :: 0 <= i < |keys| ==> !Contains(line, Pattern(keys[i]))
    ensures line in Split(RenderAll(text, ph, keys))
    decreases |keys|
  {
    if |keys| > 0 {
      var last := keys[|keys| - 1];
      RenderAllKeepsLine(text, ph, keys[..|keys| - 1], line);
      RenderPassKeepsLine(RenderAll(text, ph, keys[..|keys| - 1]), last, ph[last], line);
    }
  }

  /** Rendering a template that is exactly `{{key}}` gives the value of `key`,
      right-trimmed, whatever the order of the passes, as long as no other
      key's token occurs in the template or in that value. */
  lemma RenderAllSoleToken(ph: map<string, string>, keys: seq<string>, n: nat)
    requires forall i :: 0 <= i < |keys| ==> keys[i] in ph
    requires n < |keys| && '\n' !in keys[n]
    requires forall i :: 0 <= i < |keys| && i != n ==>
      !Contains(Pattern(keys[n]), Pattern(keys[i])) && !Contains(TrimEnd(ph[keys[n]]), Pattern(keys[i]))
    ensures RenderAll(Pattern(keys[n]), ph, keys) == TrimEnd(ph[keys[n]])
  {
    var key := keys[n];
    var before, after := keys[..n], keys[n + 1..];
    assert keys == before + [key] + after;
    forall i | 0 <= i < |before| ensures !Contains(Pattern(key), Pattern(before[i])) {
      assert before[i] == keys[i];
    }
    forall i | 0 <= i < |after| ensures !Contains(TrimEnd(ph[key]), Pattern(after[i])) {
      assert after[i] == keys[n + 1 + i];
    }
    RenderAllAppend(Pattern(key), ph, before + [key], after);
    RenderAllAppend(Pattern(key), ph, before, [key]);
    RenderAllAbsent(Pattern(key), ph, before);
    assert ([key])[..0] == [];
    RenderPassSoleToken(key, ph[key]);
    RenderAllAbsent(TrimEnd(ph[key]), ph, after);
  }

  /** `passes` lists every key of `keys` exactly once: the iteration order of a map. */
  ghost predicate IsOrdering(passes: seq<string>, keys: set<string>)
  {
    && (forall i, j :: 0 <= i < j < |passes| ==> passes[i] != passes[j])
    && (forall k :: k in keys <==> k in passes)
  }

  /** The value `render_to` stores under the reserved key: empty for no
      definitions, otherwise the serialised definitions. */
  function DefinitionsEntry(definitions: map<string, Schema>, serde: Serializable -> Option<string>): (r: Result<string, Error>)
    ensures |definitions| == 0 ==> r == Ok("")
    ensures |definitions| > 0 ==> (r.Ok? <==> serde(DefinitionsValue(definitions)).Some?)
  {
    if |definitions| != 0 then ToYaml(serde, DefinitionsValue(definitions)) else Ok("")
  }

  // ---------------------------------------------------------------- the builder

  /** The loop of `query_params`: the entry of each property, in order,
      stopping at the first property whose entry fails. */
  method CollectEntries(props: seq<Property>, entry: Property -> Result<string, Error>)
    returns (r: Result<seq<string>, Error>)
    ensures r == Collect(props, entry)
  {
    var result: seq<string> := [];
    var i := 0;
    while i < |props|
      invariant 0 <= i <= |props|
      invariant Collect(props[..i], entry) == Ok(result)
    {
      var e := entry(props[i]);
      CollectStep(props, i, entry, result);
      if e.Err? {
        return Err(e.error);
      }
      result := result + [e.value];
      i := i + 1;
    }
    assert props[..|props|] == props;
    r := Ok(result);
  }

  /** The loop of `render_to`: one pass over the text per key of `ph`, each key
      once, in an unspecified order, returned as `passes`. */
  method RenderKeys(template: string, ph: map<string, string>) returns (result: string, ghost passes: seq<string>)
    ensures IsOrdering(passes, ph.Keys)
    ensures forall i :: 0 <= i < |passes| ==> passes[i] in ph
    ensures result == RenderAll(template, ph, passes)
  {
    passes := [];
    result := template;
    var remaining := ph.Keys;
    while remaining != {}
      invariant remaining <= ph.Keys
      invariant forall i :: 0 <= i < |passes| ==> passes[i] in ph && passes[i] !in remaining
      invariant forall i, j :: 0 <= i < j < |passes| ==> passes[i] != passes[j]
      invariant forall k :: k in ph.Keys ==> k in remaining || k in passes
      invariant result == RenderAll(template, ph, passes)
      decreases remaining
    {
      var k :| k in remaining;
      ghost var before := passes;
      result := RenderPass(result, k, ph[k]);
      passes := passes + [k];
      assert passes[..|passes| - 1] == before;
      remaining := remaining - {k};
    }
  }

  /** The builder: `ph` maps placeholder names to text blocks and `definitions`
      collects the named sub-schemas of every reflected type. */
  class OpenApiPlaceHolder {
    var ph: map<string, string>
    var definitions: map<string, Schema>

    /** `new`: both maps empty. */
    constructor ()
      ensures ph == map[] && definitions == map[]
    {
      ph := map[];
      definitions := map[];
    }

    /** The definitions merge of `describe_struct`: each definition of the
        reflected type is inserted, replacing one of the same name. */
    method DescribeStruct(root: RootSchema)
      modifies this`definitions
      ensures definitions == old(definitions) + root.definitions
    {
      var pending := root.definitions.Keys;
      while pending != {}
        invariant pending <= root.definitions.Keys
        invariant definitions == old(definitions) + map k | k in root.definitions.Keys - pending :: root.definitions[k]
        decreases pending
      {
        var k :| k in pending;
        definitions := definitions[k := root.definitions[k]];
        pending := pending - {k};
      }
      assert root.definitions.Keys - pending == root.definitions.Keys;
      assert (map k | k in root.definitions.Keys :: root.definitions[k]) == root.definitions;
    }

    /** `query_params`: merges the definitions, then stores under `name` one
        `- in: query` entry per property of the object schema, joined by
        newlines; a schema without object validation or a failed serialisation leaves
        `ph` as it was. */
    method QueryParams(name: string, root: RootSchema, serde: Serializable -> Option<string>) returns (r: Outcome<Error>)
      modifies this
      ensures definitions == old(definitions) + root.definitions
      ensures QueryParameters(root.schema, serde).Ok? ==>
        r == Pass && ph == old(ph)[name := QueryParameters(root.schema, serde).value]
      ensures QueryParameters(root.schema, serde).Err? ==>
        r == Fail(QueryParameters(root.schema, serde).error) && ph == old(ph)
    {
      DescribeStruct(root);
      assert ph == old(ph);
      if root.schema.properties.None? {
        r := Fail(Unsupported(OnlyObjectTypeSupported));
      } else {
        var entries := CollectEntries(root.schema.properties.value, p => ParameterEntry(p, serde));
        if entries.Ok? {
          ph := ph[name := Join(entries.value, "\n")];
          r := Pass;
        } else {
          r := Fail(entries.error);
        }
      }
    }

    /** `schema`: merges the definitions, then stores the serialised schema of
        the reflected type under `name`. */
    method Schema(name: string, root: RootSchema, serde: Serializable -> Option<string>) returns (r: Outcome<Error>)
      modifies this
      ensures definitions == old(definitions) + root.definitions
      ensures ToYaml(serde, SchemaValue(Object(root.schema))).Ok? ==>
        r == Pass && ph == old(ph)[name := ToYaml(serde, SchemaValue(Object(root.schema))).value]
      ensures ToYaml(serde, SchemaValue(Object(root.schema))).Err? ==>
        r == Fail(ToYaml(serde, SchemaValue(Object(root.schema))).error) && ph == old(ph)
    {
      DescribeStruct(root);
      assert ph == old(ph);
      var yaml := ToYaml(serde, SchemaValue(Object(root.schema)));
      if yaml.Ok? {
        ph := ph[name := yaml.value];
        r := Pass;
      } else {
        r := Fail(yaml.error);
      }
    }

    /** `render_to`: stores the definitions under the reserved key, replacing any
        earlier value, then makes one pass over the template per stored key, in
        the map's unspecified order, returned as `passes`. */
    method RenderTo(template: string, serde: Serializable -> Option<string>)
      returns (r: Result<string, Error>, ghost passes: seq<string>)
      modifies this
      ensures definitions == old(definitions)
      ensures DefinitionsEntry(old(definitions), serde).Err? ==>
        r == Err(DefinitionsEntry(old(definitions), serde).error) && ph == old(ph)
      ensures DefinitionsEntry(old(definitions), serde).Ok? ==>
        && ph == old(ph)[Reserved := DefinitionsEntry(old(definitions), serde).value]
        && IsOrdering(passes, ph.Keys)
        && (forall i :: 0 <= i < |passes| ==> passes[i] in ph)
        && r == Ok(RenderAll(template, ph, passes))
    {
      passes := [];
      var entry := DefinitionsEntry(definitions, serde);
      if entry.Ok? {
        ph := ph[Reserved := entry.value];
        var result;
        result, passes := RenderKeys(template, ph);
        r := Ok(result);
      } else {
        r := Err(entry.error);
      }
    }
  }
}
