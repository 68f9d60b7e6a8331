/**
 * The Rust code templates of `src/tools/codegen.ts`. Each generator is written as the
 * source's template reads, one `Line` per line of the template (the text followed by a
 * line feed). Beside it stands the list of lines the template produces, and a lemma
 * shows the generated text is exactly those lines, so that splitting it on line feeds
 * gives them back whenever the inputs hold no line feed of their own.
 */
module Codegen {
  import opened JsText

  // ---------------------------------------------------------------------------
  // Lines

  /** A line of output: its text and the line feed that ends it. */
  function Line(s: string): string {
    s + "\n"
  }

  /** Each line of `ls`, in order, ended by a line feed. */
  function Unlines(ls: seq<string>): string
    decreases |ls|
  {
    if ls == [] then [] else Unlines(ls[..|ls| - 1]) + Line(ls[|ls| - 1])
  }

  lemma UnlinesSnoc(a: seq<string>, x: string)
    ensures Unlines(a + [x]) == Unlines(a) + Line(x)
  {
    assert (a + [x])[..|a|] == a;
  }

  lemma {:induction false} UnlinesAppend(a: seq<string>, b: seq<string>)
    decreases |b|
    ensures Unlines(a + b) == Unlines(a) + Unlines(b)
  {
    if b == [] {
      assert a + b == a;
    } else {
      var c := b[..|b| - 1];
      UnlinesAppend(a, c);
      AppendSnoc(a, b);
      UnlinesSnoc(a + c, b[|b| - 1]);
      assert Unlines(a + b) == Unlines(a + c) + Line(b[|b| - 1]);
      assert Unlines(b) == Unlines(c) + Line(b[|b| - 1]);
    }
  }

  lemma AppendSnoc(a: seq<string>, b: seq<string>)
    requires b != []
    ensures a + b == (a + b[..|b| - 1]) + [b[|b| - 1]]
  {
  }

  lemma UnlinesCons(x: string, rest: seq<string>)
    ensures Unlines([x] + rest) == Line(x) + Unlines(rest)
  {
    UnlinesAppend([x], rest);
    UnlinesSnoc([], x);
  }

  /** `xs.join("\n")` ended by one more line feed is the lines of `xs`, for a non-empty `xs`. */
  lemma {:induction false} JoinNewlines(xs: seq<string>)
    requires xs != []
    decreases |xs|
    ensures Line(Join(xs, "\n")) == Unlines(xs)
  {
    UnlinesCons(xs[0], xs[1..]);
    assert [xs[0]] + xs[1..] == xs;
    if |xs| == 1 {
      assert xs[1..] == [];
    } else {
      JoinNewlines(xs[1..]);
    }
  }

  /** Ended lines are the items of a join with one more, empty, item. */
  lemma {:induction false} UnlinesJoin(ls: seq<string>)
    decreases |ls|
    ensures Unlines(ls) == Join(ls + [""], "\n")
  {
    if ls != [] {
      UnlinesJoin(ls[1..]);
      UnlinesCons(ls[0], ls[1..]);
      assert [ls[0]] + ls[1..] == ls;
      assert (ls + [""])[1..] == ls[1..] + [""];
    }
  }

  predicate NoNewline(s: string) {
    '\n' !in s
  }

  predicate AllNoNewline(xs: seq<string>) {
    forall k :: 0 <= k < |xs| ==> NoNewline(xs[k])
  }

  /** Splitting ended lines that hold no line feed of their own gives the lines and a final empty piece. */
  lemma SplitUnlines(ls: seq<string>)
    requires AllNoNewline(ls)
    ensures Split(Unlines(ls), "\n") == ls + [""]
  {
    UnlinesJoin(ls);
    var xs := ls + [""];
    forall k | 0 <= k < |xs| ensures '\n' !in xs[k] {
      if k < |ls| {
        assert xs[k] == ls[k];
      }
    }
    SplitJoin(xs, '\n');
  }

  lemma {:induction false} JoinNoNewline(xs: seq<string>, sep: string)
    requires AllNoNewline(xs) && NoNewline(sep)
    decreases |xs|
    ensures NoNewline(Join(xs, sep))
  {
    if |xs| > 1 {
      JoinNoNewline(xs[1..], sep);
    }
  }

  lemma AllNoNewlineAppend(a: seq<string>, b: seq<string>)
    requires AllNoNewline(a) && AllNoNewline(b)
    ensures AllNoNewline(a + b)
  {
    forall k | 0 <= k < |a + b| ensures NoNewline((a + b)[k]) {
      if k < |a| {
        assert (a + b)[k] == a[k];
      } else {
        assert (a + b)[k] == b[k - |a|];
      }
    }
  }

  lemma AllNoNewlineSnoc(a: seq<string>, x: string)
    requires AllNoNewline(a) && NoNewline(x)
    ensures AllNoNewline(a + [x])
  {
    AllNoNewlineAppend(a, [x]);
  }

  // ---------------------------------------------------------------------------
  // Shared prefixes

  /** The three visibilities a generator accepts: `pub`, `pub(crate)` and none. */
  datatype Visibility = Pub | PubCrate | Private

  function VisibilityText(v: Visibility): string {
    match v
    case Pub => "pub"
    case PubCrate => "pub(crate)"
    case Private => ""
  }

  /** `"<vis> "`, or nothing for no visibility (the empty string is falsy). */
  function VisibilityPrefix(v: Visibility): (r: string)
    ensures r == [] <==> v == Private
    ensures v == Pub ==> r == "pub "
    ensures v == PubCrate ==> r == "pub(crate) "
    ensures NoNewline(r)
  {
    if VisibilityText(v) != [] then VisibilityText(v) + " " else ""
  }

  /** The `#[derive(D1, D2)]` line, present only when something is derived. */
  function DeriveLines(derives: seq<string>): seq<string> {
    if |derives| > 0 then ["#[derive(" + Join(derives, ", ") + ")]"] else []
  }

  function DerivePrefix(derives: seq<string>): string {
    if |derives| > 0 then Line("#[derive(" + Join(derives, ", ") + ")]") else ""
  }

  lemma DeriveNoNewline(derives: seq<string>)
    requires AllNoNewline(derives)
    ensures AllNoNewline(DeriveLines(derives))
  {
    JoinNoNewline(derives, ", ");
  }

  lemma DeriveUnlines(derives: seq<string>)
    ensures Unlines(DeriveLines(derives)) == DerivePrefix(derives)
  {
    if |derives| > 0 {
      UnlinesSnoc([], "#[derive(" + Join(derives, ", ") + ")]");
    }
  }

  // ---------------------------------------------------------------------------
  // generateStruct

  datatype Field = Field(name: string, ty: string)

  function FieldLines(fields: seq<Field>): (r: seq<string>)
    ensures |r| == |fields|
    ensures forall i :: 0 <= i < |fields| ==> r[i] == "    " + fields[i].name + ": " + fields[i].ty + ","
  {
    seq(|fields|, i requires 0 <= i < |fields| => "    " + fields[i].name + ": " + fields[i].ty + ",")
  }

  function CtorParams(fields: seq<Field>): (r: seq<string>)
    ensures |r| == |fields| && forall i :: 0 <= i < |fields| ==> r[i] == fields[i].name + ": " + fields[i].ty
  {
    seq(|fields|, i requires 0 <= i < |fields| => fields[i].name + ": " + fields[i].ty)
  }

  function FieldNames(fields: seq<Field>): (r: seq<string>)
    ensures |r| == |fields| && forall i :: 0 <= i < |fields| ==> r[i] == fields[i].name
  {
    seq(|fields|, i requires 0 <= i < |fields| => fields[i].name)
  }

  /** `generateStruct`: the declaration, then an `impl` block holding a `new` constructor. */
  function GenerateStruct(name: string, vis: Visibility, derives: seq<string>, fields: seq<Field>): string {
    var visibility := VisibilityPrefix(vis);
    DerivePrefix(derives) + Line(visibility + "struct " + name + " {")
    + Line(Join(FieldLines(fields), "\n"))
    + Line("}") + Line("")
    + Line("impl " + name + " {")
    + Line("    " + visibility + "fn new(" + Join(CtorParams(fields), ", ") + ") -> Self {")
    + Line("        Self { " + Join(FieldNames(fields), ", ") + " }")
    + Line("    }")
    + Line("}")
  }

  /**
   * The struct's lines: the derive line when something is derived, `<vis>struct Name {`,
   * one `    name: type,` line per field in order (one empty line when there are none),
   * and the `impl` block whose constructor takes `name: type` for every field and
   * builds `Self { name, ... }`.
   */
  function StructLines(name: string, vis: Visibility, derives: seq<string>, fields: seq<Field>): seq<string> {
    var visibility := VisibilityPrefix(vis);
    DeriveLines(derives) + [visibility + "struct " + name + " {"]
    + (if fields == [] then [""] else FieldLines(fields))
    + ["}"] + [""]
    + ["impl " + name + " {"]
    + ["    " + visibility + "fn new(" + Join(CtorParams(fields), ", ") + ") -> Self {"]
    + ["        Self { " + Join(FieldNames(fields), ", ") + " }"]
    + ["    }"]
    + ["}"]
  }

  /** The generated struct is exactly its lines, each ended by a line feed. */
  lemma StructLayout(name: string, vis: Visibility, derives: seq<string>, fields: seq<Field>)
    ensures GenerateStruct(name, vis, derives, fields) == Unlines(StructLines(name, vis, derives, fields))
  {
    var visibility := VisibilityPrefix(vis);
    var l0 := DeriveLines(derives);
    var l1 := l0 + [visibility + "struct " + name + " {"];
    var body := if fields == [] then [""] else FieldLines(fields);
    var l2 := l1 + body;
    var l3 := l2 + ["}"];
    var l4 := l3 + [""];
    var l5 := l4 + ["impl " + name + " {"];
    var l6 := l5 + ["    " + visibility + "fn new(" + Join(CtorParams(fields), ", ") + ") -> Self {"];
    var l7 := l6 + ["        Self { " + Join(FieldNames(fields), ", ") + " }"];
    var l8 := l7 + ["    }"];
    DeriveUnlines(derives);
    UnlinesSnoc(l0, visibility + "struct " + name + " {");
    UnlinesAppend(l1, body);
    if fields == [] {
      UnlinesSnoc([], "");
    } else {
      JoinNewlines(FieldLines(fields));
    }
    UnlinesSnoc(l2, "}");
    UnlinesSnoc(l3, "");
    UnlinesSnoc(l4, "impl " + name + " {");
    UnlinesSnoc(l5, "    " + visibility + "fn new(" + Join(CtorParams(fields), ", ") + ") -> Self {");
    UnlinesSnoc(l6, "        Self { " + Join(FieldNames(fields), ", ") + " }");
    UnlinesSnoc(l7, "    }");
    UnlinesSnoc(l8, "}");
  }

  lemma FieldLinesNoNewline(fields: seq<Field>)
    requires forall i :: 0 <= i < |fields| ==> NoNewline(fields[i].name) && NoNewline(fields[i].ty)
    ensures AllNoNewline(FieldLines(fields))
  {
    forall k | 0 <= k < |fields| ensures NoNewline(FieldLines(fields)[k]) {
      assert FieldLines(fields)[k] == "    " + fields[k].name + ": " + fields[k].ty + ",";
    }
  }

  lemma StructLinesNoNewline(name: string, vis: Visibility, derives: seq<string>, fields: seq<Field>)
    requires NoNewline(name) && AllNoNewline(derives)
    requires forall i :: 0 <= i < |fields| ==> NoNewline(fields[i].name) && NoNewline(fields[i].ty)
    ensures AllNoNewline(StructLines(name, vis, derives, fields))
  {
    var visibility := VisibilityPrefix(vis);
    var params := Join(CtorParams(fields), ", ");
    var names := Join(FieldNames(fields), ", ");
    JoinNoNewline(CtorParams(fields), ", ");
    JoinNoNewline(FieldNames(fields), ", ");
    var l2 := StructHead(name, vis, derives, fields);
    StructHeadNoNewline(name, vis, derives, fields);
    NoNewlines3More(l2, "}", "", "impl " + name + " {");
    NoNewlines3More(l2 + ["}"] + [""] + ["impl " + name + " {"],
                    "    " + visibility + "fn new(" + params + ") -> Self {",
                    "        Self { " + names + " }", "    }");
    NoNewlines1More(l2 + ["}"] + [""] + ["impl " + name + " {"]
                    + ["    " + visibility + "fn new(" + params + ") -> Self {"]
                    + ["        Self { " + names + " }"] + ["    }"], "}");
  }

  /** The struct's lines through its last field. */
  function StructHead(name: string, vis: Visibility, derives: seq<string>, fields: seq<Field>): seq<string> {
    DeriveLines(derives) + [VisibilityPrefix(vis) + "struct " + name + " {"]
    + (if fields == [] then [""] else FieldLines(fields))
  }

  lemma StructHeadNoNewline(name: string, vis: Visibility, derives: seq<string>, fields: seq<Field>)
    requires NoNewline(name) && AllNoNewline(derives)
    requires forall i :: 0 <= i < |fields| ==> NoNewline(fields[i].name) && NoNewline(fields[i].ty)
    ensures AllNoNewline(StructHead(name, vis, derives, fields))
  {
    var l0 := DeriveLines(derives);
    var l1 := l0 + [VisibilityPrefix(vis) + "struct " + name + " {"];
    var body := if fields == [] then [""] else FieldLines(fields);
    DeriveNoNewline(derives);
    AllNoNewlineSnoc(l0, VisibilityPrefix(vis) + "struct " + name + " {");
    if fields == [] {
      assert AllNoNewline([""]);
    } else {
      FieldLinesNoNewline(fields);
    }
    AllNoNewlineAppend(l1, body);
  }

  /** With no line feed in the names, types and derives, splitting the struct's text on line feeds gives its lines back. */
  lemma StructLineByLine(name: string, vis: Visibility, derives: seq<string>, fields: seq<Field>)
    requires NoNewline(name) && AllNoNewline(derives)
    requires forall i :: 0 <= i < |fields| ==> NoNewline(fields[i].name) && NoNewline(fields[i].ty)
    ensures Split(GenerateStruct(name, vis, derives, fields), "\n") == StructLines(name, vis, derives, fields) + [""]
  {
    StructLayout(name, vis, derives, fields);
    StructLinesNoNewline(name, vis, derives, fields);
    SplitUnlines(StructLines(name, vis, derives, fields));
  }

  /** The output opens with `#[` exactly when something is derived. */
  lemma StructDerives(name: string, vis: Visibility, derives: seq<string>, fields: seq<Field>)
    ensures StartsWith(GenerateStruct(name, vis, derives, fields), "#[") <==> |derives| > 0
  {
    var visibility := VisibilityPrefix(vis);
    var decl := visibility + "struct " + name + " {";
    assert decl[0] != '#' by {
      if vis == Private {
        assert decl[0] == 's';
      } else {
        assert decl[0] == 'p';
      }
    }
    DeriveHead(derives, decl);
    var t1 := DerivePrefix(derives) + Line(decl);
    var t2 := t1 + Line(Join(FieldLines(fields), "\n"));
    var t3 := t2 + Line("}");
    var t4 := t3 + Line("");
    var t5 := t4 + Line("impl " + name + " {");
    var t6 := t5 + Line("    " + visibility + "fn new(" + Join(CtorParams(fields), ", ") + ") -> Self {");
    var t7 := t6 + Line("        Self { " + Join(FieldNames(fields), ", ") + " }");
    var t8 := t7 + Line("    }");
    assert GenerateStruct(name, vis, derives, fields) == t8 + Line("}");
    StartsWithLeft(t8, Line("}"), "#[");
    StartsWithLeft(t7, Line("    }"), "#[");
    StartsWithLeft(t6, Line("        Self { " + Join(FieldNames(fields), ", ") + " }"), "#[");
    StartsWithLeft(t5, Line("    " + visibility + "fn new(" + Join(CtorParams(fields), ", ") + ") -> Self {"), "#[");
    StartsWithLeft(t4, Line("impl " + name + " {"), "#[");
    StartsWithLeft(t3, Line(""), "#[");
    StartsWithLeft(t2, Line("}"), "#[");
    StartsWithLeft(t1, Line(Join(FieldLines(fields), "\n")), "#[");
  }

  /** The derive line, when there is one, is what opens the text: a first line not starting with `#` cannot. */
  lemma DeriveHead(derives: seq<string>, line: string)
    requires line != [] && line[0] != '#'
    ensures |DerivePrefix(derives) + Line(line)| >= 2
    ensures StartsWith(DerivePrefix(derives) + Line(line), "#[") <==> |derives| > 0
  {
    var t := DerivePrefix(derives) + Line(line);
    if |derives| == 0 {
      assert t[0] == line[0];
    } else {
      assert t[..2] == "#[";
    }
  }

  lemma StartsWithLeft(a: string, b: string, p: string)
    requires |p| <= |a|
    ensures StartsWith(a + b, p) <==> StartsWith(a, p)
  {
    assert (a + b)[..|p|] == a[..|p|];
  }

  // ---------------------------------------------------------------------------
  // generateEnum

  /** A variant; an empty `payload` stands for an absent one (both are falsy). */
  datatype Variant = Variant(name: string, payload: string)

  function VariantLines(variants: seq<Variant>): (r: seq<string>)
    ensures |r| == |variants|
    ensures forall i :: 0 <= i < |variants| ==>
      r[i] == "    " + variants[i].name + (if variants[i].payload != [] then " " + variants[i].payload else "") + ","
  {
    seq(|variants|, i requires 0 <= i < |variants| =>
      "    " + variants[i].name + (if variants[i].payload != [] then " " + variants[i].payload else "") + ",")
  }

  /** `generateEnum`. */
  function GenerateEnum(name: string, vis: Visibility, derives: seq<string>, variants: seq<Variant>): string {
    DerivePrefix(derives) + Line(VisibilityPrefix(vis) + "enum " + name + " {")
    + Line(Join(VariantLines(variants), "\n"))
    + Line("}")
  }

  /** The enum's lines: derive line, `<vis>enum Name {`, one line per variant in order, `}`. */
  function EnumLines(name: string, vis: Visibility, derives: seq<string>, variants: seq<Variant>): seq<string> {
    DeriveLines(derives) + [VisibilityPrefix(vis) + "enum " + name + " {"]
    + (if variants == [] then [""] else VariantLines(variants))
    + ["}"]
  }

  lemma EnumLayout(name: string, vis: Visibility, derives: seq<string>, variants: seq<Variant>)
    ensures GenerateEnum(name, vis, derives, variants) == Unlines(EnumLines(name, vis, derives, variants))
  {
    var l0 := DeriveLines(derives);
    var l1 := l0 + [VisibilityPrefix(vis) + "enum " + name + " {"];
    var body := if variants == [] then [""] else VariantLines(variants);
    DeriveUnlines(derives);
    UnlinesSnoc(l0, VisibilityPrefix(vis) + "enum " + name + " {");
    UnlinesAppend(l1, body);
    if variants == [] {
      UnlinesSnoc([], "");
    } else {
      JoinNewlines(VariantLines(variants));
    }
    UnlinesSnoc(l1 + body, "}");
  }

  /** The output opens with `#[` exactly when something is derived. */
  lemma EnumDerives(name: string, vis: Visibility, derives: seq<string>, variants: seq<Variant>)
    ensures StartsWith(GenerateEnum(name, vis, derives, variants), "#[") <==> |derives| > 0
  {
    var decl := VisibilityPrefix(vis) + "enum " + name + " {";
    assert decl[0] != '#' by {
      if vis == Private {
        assert decl[0] == 'e';
      } else {
        assert decl[0] == 'p';
      }
    }
    DeriveHead(derives, decl);
    var t1 := DerivePrefix(derives) + Line(decl);
    var t2 := t1 + Line(Join(VariantLines(variants), "\n"));
    assert GenerateEnum(name, vis, derives, variants) == t2 + Line("}");
    StartsWithLeft(t2, Line("}"), "#[");
    StartsWithLeft(t1, Line(Join(VariantLines(variants), "\n")), "#[");
  }

  lemma EnumLineByLine(name: string, vis: Visibility, derives: seq<string>, variants: seq<Variant>)
    requires NoNewline(name) && AllNoNewline(derives)
    requires forall i :: 0 <= i < |variants| ==> NoNewline(variants[i].name) && NoNewline(variants[i].payload)
    ensures Split(GenerateEnum(name, vis, derives, variants), "\n") == EnumLines(name, vis, derives, variants) + [""]
  {
    EnumLayout(name, vis, derives, variants);
    EnumLinesNoNewline(name, vis, derives, variants);
    SplitUnlines(EnumLines(name, vis, derives, variants));
  }

  lemma EnumLinesNoNewline(name: string, vis: Visibility, derives: seq<string>, variants: seq<Variant>)
    requires NoNewline(name) && AllNoNewline(derives)
    requires forall i :: 0 <= i < |variants| ==> NoNewline(variants[i].name) && NoNewline(variants[i].payload)
    ensures AllNoNewline(EnumLines(name, vis, derives, variants))
  {
    var l0 := DeriveLines(derives);
    var l1 := l0 + [VisibilityPrefix(vis) + "enum " + name + " {"];
    var body := if variants == [] then [""] else VariantLines(variants);
    DeriveNoNewline(derives);
    AllNoNewlineSnoc(l0, VisibilityPrefix(vis) + "enum " + name + " {");
    forall k | 0 <= k < |body| ensures NoNewline(body[k]) {
      if variants != [] {
        var v := variants[k];
        assert body[k] == "    " + v.name + (if v.payload != [] then " " + v.payload else "") + ",";
      }
    }
    AllNoNewlineAppend(l1, body);
    AllNoNewlineSnoc(l1 + body, "}");
  }

  // ---------------------------------------------------------------------------
  // generateTraitImpl

  /** `m.trim().replace(/;\s*$/, "")`: the trimmed signature less one final `;`. */
  function Signature(m: string): (r: string)
    ensures |Trim(m)| > 0 && Trim(m)[|Trim(m)| - 1] == ';' ==> r + ";" == Trim(m)
    ensures !(|Trim(m)| > 0 && Trim(m)[|Trim(m)| - 1] == ';') ==> r == Trim(m)
  {
    var t := Trim(m);
    if |t| > 0 && t[|t| - 1] == ';' then
      SemicolonLast(t);
      t[..|t| - 1]
    else t
  }

  lemma SemicolonLast(t: string)
    requires |t| > 0 && t[|t| - 1] == ';'
    ensures t[..|t| - 1] + ";" == t
  {
  }

  /** The stub of a method with signature `sig`. */
  function MethodStub(sig: string): string {
    Line("    " + sig + " {") + Line("        todo!()") + Line("    }")
  }

  function MethodStubs(methods: seq<string>): (r: seq<string>)
    ensures |r| == |methods| && forall i :: 0 <= i < |methods| ==> r[i] == MethodStub(Signature(methods[i]))
  {
    seq(|methods|, i requires 0 <= i < |methods| => MethodStub(Signature(methods[i])))
  }

  /** `generateTraitImpl`: a stub per method, joined by line feeds, or a placeholder comment. */
  function GenerateTraitImpl(traitName: string, forType: string, methods: seq<string>): string {
    var body := if |methods| > 0 then Join(MethodStubs(methods), "\n") else Line("    // Add methods here");
    Line("impl " + traitName + " for " + forType + " {") + body + Line("}")
  }

  /** The lines of one method: its signature, a `todo!()` body, the closing brace. */
  function StubLines(sig: string): seq<string> {
    ["    " + sig + " {"] + ["        todo!()"] + ["    }"]
  }

  /** Blocks of lines one after the other, an empty line between two blocks. */
  function Blocks(bs: seq<seq<string>>): seq<string>
    decreases |bs|
  {
    if bs == [] then []
    else if |bs| == 1 then bs[0]
    else bs[0] + [""] + Blocks(bs[1..])
  }

  function StubBlocks(methods: seq<string>): (r: seq<seq<string>>)
    ensures |r| == |methods| && forall i :: 0 <= i < |methods| ==> r[i] == StubLines(Signature(methods[i]))
  {
    seq(|methods|, i requires 0 <= i < |methods| => StubLines(Signature(methods[i])))
  }

  /** The methods' lines, an empty line between two methods. */
  function MethodLines(methods: seq<string>): seq<string> {
    Blocks(StubBlocks(methods))
  }

  function TraitLines(traitName: string, forType: string, methods: seq<string>): seq<string> {
    ["impl " + traitName + " for " + forType + " {"]
    + (if methods == [] then ["    // Add methods here"] else MethodLines(methods))
    + ["}"]
  }

  lemma StubText(sig: string)
    ensures Unlines(StubLines(sig)) == MethodStub(sig)
  {
    var a := "    " + sig + " {";
    UnlinesSnoc([], a);
    UnlinesSnoc([a], "        todo!()");
    UnlinesSnoc([a] + ["        todo!()"], "    }");
  }

  /** Blocks whose ended lines are the texts become, with empty lines between them, the texts joined by line feeds. */
  lemma {:induction false} BlocksText(bs: seq<seq<string>>, texts: seq<string>)
    requires bs != [] && |bs| == |texts|
    requires forall i :: 0 <= i < |bs| ==> Unlines(bs[i]) == texts[i]
    decreases |bs|
    ensures Unlines(Blocks(bs)) == Join(texts, "\n")
  {
    if |bs| > 1 {
      var rest, restTexts := bs[1..], texts[1..];
      assert forall i :: 0 <= i < |rest| ==> rest[i] == bs[i + 1] && restTexts[i] == texts[i + 1];
      BlocksText(rest, restTexts);
      UnlinesAppend(bs[0] + [""], Blocks(rest));
      UnlinesSnoc(bs[0], "");
      assert Line("") == "\n";
    }
  }

  lemma MethodLinesText(methods: seq<string>)
    requires methods != []
    ensures Unlines(MethodLines(methods)) == Join(MethodStubs(methods), "\n")
  {
    forall i | 0 <= i < |methods| ensures Unlines(StubBlocks(methods)[i]) == MethodStubs(methods)[i] {
      StubText(Signature(methods[i]));
    }
    BlocksText(StubBlocks(methods), MethodStubs(methods));
  }

  /**
   * The generated impl is exactly its lines: `impl T for U {`, for each method its trimmed
   * signature less one final `;` with a `todo!()` body (an empty line between methods),
   * or a single placeholder comment when there are none, and the closing brace.
   */
  lemma TraitLayout(traitName: string, forType: string, methods: seq<string>)
    ensures GenerateTraitImpl(traitName, forType, methods) == Unlines(TraitLines(traitName, forType, methods))
  {
    var head := "impl " + traitName + " for " + forType + " {";
    var body := if methods == [] then ["    // Add methods here"] else MethodLines(methods);
    var text := if |methods| > 0 then Join(MethodStubs(methods), "\n") else Line("    // Add methods here");
    if methods != [] {
      MethodLinesText(methods);
    } else {
      UnlinesSnoc([], "    // Add methods here");
      assert [] + ["    // Add methods here"] == body;
    }
    assert Unlines(body) == text;
    UnlinesCons(head, body);
    UnlinesSnoc([head] + body, "}");
    assert TraitLines(traitName, forType, methods) == [head] + body + ["}"];
    assert GenerateTraitImpl(traitName, forType, methods) == Line(head) + text + Line("}");
  }

  /** A signature written with surrounding whitespace and a final `;` (`fn fmt(&self) -> String;`) is stubbed without them. */
  lemma SignatureStripped(sig: string)
    requires sig != [] && !IsWhitespace(sig[0])
    ensures Signature(" " + sig + ";") == sig
  {
    var m := sig + ";";
    assert " " + sig + ";" == " " + m;
    assert m[|m| - 1] == ';' && m[0] == sig[0];
    TrimLeadingSpace(' ', m);
    assert m[..|m| - 1] == sig;
  }

  // ---------------------------------------------------------------------------
  // generateTests

  datatype TestKind = Unit | Integration

  /** `generateTests`. */
  function GenerateTests(functionName: string, kind: TestKind, moduleName: string): string {
    if kind == Integration then
      Line("// Put this file under tests/" + moduleName + ".rs") + Line("")
      + Line("#[test]")
      + Line("fn " + functionName + "_works() {")
      + Line("    // Arrange") + Line("")
      + Line("    // Act") + Line("")
      + Line("    // Assert")
      + Line("    todo!()")
      + Line("}")
    else
      Line("#[cfg(test)]")
      + Line("mod " + moduleName + " {")
      + Line("    use super::*;") + Line("")
      + Line("    #[test]")
      + Line("    fn " + functionName + "_works() {")
      + Line("        // Arrange") + Line("")
      + Line("        // Act") + Line("")
      + Line("        // Assert")
      + Line("        todo!()")
      + Line("    }")
      + Line("}")
  }

  /**
   * An integration test is a whole file: a note naming `tests/<module>.rs`, then a
   * top-level `#[test] fn <name>_works()` whose body is the Arrange / Act / Assert
   * skeleton ending in `todo!()`. A unit test is a `#[cfg(test)] mod <module>` that
   * imports its parent and holds the same function one level deeper.
   */
  function TestLines(functionName: string, kind: TestKind, moduleName: string): seq<string> {
    if kind == Integration then
      ["// Put this file under tests/" + moduleName + ".rs"] + [""] + ["#[test]"]
      + ["fn " + functionName + "_works() {"] + ["    // Arrange"] + [""]
      + ["    // Act"] + [""] + ["    // Assert"]
      + ["    todo!()"] + ["}"]
    else
      ["#[cfg(test)]"] + ["mod " + moduleName + " {"] + ["    use super::*;"]
      + [""] + ["    #[test]"] + ["    fn " + functionName + "_works() {"]
      + ["        // Arrange"] + [""] + ["        // Act"]
      + [""] + ["        // Assert"] + ["        todo!()"]
      + ["    }"] + ["}"]
  }

  lemma Unlines1More(p: seq<string>, a: string)
    ensures Unlines(p + [a]) == Unlines(p) + Line(a)
  {
    UnlinesSnoc(p, a);
  }

  lemma Unlines2More(p: seq<string>, a: string, b: string)
    ensures Unlines(p + [a] + [b]) == Unlines(p) + Line(a) + Line(b)
  {
    UnlinesSnoc(p, a);
    UnlinesSnoc(p + [a], b);
  }

  lemma Unlines3More(p: seq<string>, a: string, b: string, c: string)
    ensures Unlines(p + [a] + [b] + [c]) == Unlines(p) + Line(a) + Line(b) + Line(c)
  {
    UnlinesSnoc(p, a);
    UnlinesSnoc(p + [a], b);
    UnlinesSnoc(p + [a] + [b], c);
  }

  /** Eleven lines, each ended. */
  lemma Unlines11(a0: string, a1: string, a2: string, a3: string, a4: string, a5: string, a6: string, a7: string, a8: string, a9: string, a10: string)
    ensures Unlines([a0] + [a1] + [a2] + [a3] + [a4] + [a5] + [a6] + [a7] + [a8] + [a9] + [a10])
         == Line(a0) + Line(a1) + Line(a2) + Line(a3) + Line(a4) + Line(a5) + Line(a6) + Line(a7) + Line(a8) + Line(a9) + Line(a10)
  {
    UnlinesSnoc([], a0);
    assert [] + [a0] == [a0];
    Unlines3More([a0], a1, a2, a3);
    Unlines3More([a0] + [a1] + [a2] + [a3], a4, a5, a6);
    Unlines3More([a0] + [a1] + [a2] + [a3] + [a4] + [a5] + [a6], a7, a8, a9);
    Unlines1More([a0] + [a1] + [a2] + [a3] + [a4] + [a5] + [a6] + [a7] + [a8] + [a9], a10);
  }

  /** Fourteen lines, each ended. */
  lemma Unlines14(a0: string, a1: string, a2: string, a3: string, a4: string, a5: string, a6: string, a7: string, a8: string, a9: string, a10: string, a11: string, a12: string, a13: string)
    ensures Unlines([a0] + [a1] + [a2] + [a3] + [a4] + [a5] + [a6] + [a7] + [a8] + [a9] + [a10] + [a11] + [a12] + [a13])
         == Line(a0) + Line(a1) + Line(a2) + Line(a3) + Line(a4) + Line(a5) + Line(a6) + Line(a7) + Line(a8) + Line(a9) + Line(a10) + Line(a11) + Line(a12) + Line(a13)
  {
    UnlinesSnoc([], a0);
    assert [] + [a0] == [a0];
    Unlines3More([a0], a1, a2, a3);
    Unlines3More([a0] + [a1] + [a2] + [a3], a4, a5, a6);
    Unlines3More([a0] + [a1] + [a2] + [a3] + [a4] + [a5] + [a6], a7, a8, a9);
    Unlines3More([a0] + [a1] + [a2] + [a3] + [a4] + [a5] + [a6] + [a7] + [a8] + [a9], a10, a11, a12);
    Unlines1More([a0] + [a1] + [a2] + [a3] + [a4] + [a5] + [a6] + [a7] + [a8] + [a9] + [a10] + [a11] + [a12], a13);
  }

  /** The generated test is exactly its lines, each ended by a line feed. */
  lemma TestLayout(functionName: string, kind: TestKind, moduleName: string)
    ensures GenerateTests(functionName, kind, moduleName) == Unlines(TestLines(functionName, kind, moduleName))
  {
    if kind == Integration {
      Unlines11("// Put this file under tests/" + moduleName + ".rs", "", "#[test]", "fn " + functionName + "_works() {", "    // Arrange", "", "    // Act", "", "    // Assert", "    todo!()", "}");
    } else {
      Unlines14("#[cfg(test)]", "mod " + moduleName + " {", "    use super::*;", "", "    #[test]", "    fn " + functionName + "_works() {", "        // Arrange", "", "        // Act", "", "        // Assert", "        todo!()", "    }", "}");
    }
  }

  lemma NoNewlines1More(p: seq<string>, a: string)
    requires AllNoNewline(p) && NoNewline(a)
    ensures AllNoNewline(p + [a])
  {
    AllNoNewlineSnoc(p, a);
  }

  lemma NoNewlines2More(p: seq<string>, a: string, b: string)
    requires AllNoNewline(p) && NoNewline(a) && NoNewline(b)
    ensures AllNoNewline(p + [a] + [b])
  {
    AllNoNewlineSnoc(p, a);
    AllNoNewlineSnoc(p + [a], b);
  }

  lemma NoNewlines3More(p: seq<string>, a: string, b: string, c: string)
    requires AllNoNewline(p) && NoNewline(a) && NoNewline(b) && NoNewline(c)
    ensures AllNoNewline(p + [a] + [b] + [c])
  {
    AllNoNewlineSnoc(p, a);
    AllNoNewlineSnoc(p + [a], b);
    AllNoNewlineSnoc(p + [a] + [b], c);
  }

  lemma IntegrationNoNewline(functionName: string, moduleName: string)
    requires NoNewline(functionName) && NoNewline(moduleName)
    ensures AllNoNewline(TestLines(functionName, Integration, moduleName))
  {
      assert AllNoNewline(["// Put this file under tests/" + moduleName + ".rs"]);
      NoNewlines3More(["// Put this file under tests/" + moduleName + ".rs"], "", "#[test]", "fn " + functionName + "_works() {");
      NoNewlines3More(["// Put this file under tests/" + moduleName + ".rs"] + [""] + ["#[test]"] + ["fn " + functionName + "_works() {"], "    // Arrange", "", "    // Act");
      NoNewlines3More(["// Put this file under tests/" + moduleName + ".rs"] + [""] + ["#[test]"] + ["fn " + functionName + "_works() {"] + ["    // Arrange"] + [""] + ["    // Act"], "", "    // Assert", "    todo!()");
      NoNewlines1More(["// Put this file under tests/" + moduleName + ".rs"] + [""] + ["#[test]"] + ["fn " + functionName + "_works() {"] + ["    // Arrange"] + [""] + ["    // Act"] + [""] + ["    // Assert"] + ["    todo!()"], "}");
  }

  lemma UnitNoNewline(functionName: string, moduleName: string)
    requires NoNewline(functionName) && NoNewline(moduleName)
    ensures AllNoNewline(TestLines(functionName, Unit, moduleName))
  {
      assert AllNoNewline(["#[cfg(test)]"]);
      NoNewlines3More(["#[cfg(test)]"], "mod " + moduleName + " {", "    use super::*;", "");
      NoNewlines3More(["#[cfg(test)]"] + ["mod " + moduleName + " {"] + ["    use super::*;"] + [""], "    #[test]", "    fn " + functionName + "_works() {", "        // Arrange");
      NoNewlines3More(["#[cfg(test)]"] + ["mod " + moduleName + " {"] + ["    use super::*;"] + [""] + ["    #[test]"] + ["    fn " + functionName + "_works() {"] + ["        // Arrange"], "", "        // Act", "");
      NoNewlines3More(["#[cfg(test)]"] + ["mod " + moduleName + " {"] + ["    use super::*;"] + [""] + ["    #[test]"] + ["    fn " + functionName + "_works() {"] + ["        // Arrange"] + [""] + ["        // Act"] + [""], "        // Assert", "        todo!()", "    }");
      NoNewlines1More(["#[cfg(test)]"] + ["mod " + moduleName + " {"] + ["    use super::*;"] + [""] + ["    #[test]"] + ["    fn " + functionName + "_works() {"] + ["        // Arrange"] + [""] + ["        // Act"] + [""] + ["        // Assert"] + ["        todo!()"] + ["    }"], "}");
  }

  /** With no line feed in the names, splitting the test's text on line feeds gives its lines back. */
  lemma TestLineByLine(functionName: string, kind: TestKind, moduleName: string)
    requires NoNewline(functionName) && NoNewline(moduleName)
    ensures Split(GenerateTests(functionName, kind, moduleName), "\n") == TestLines(functionName, kind, moduleName) + [""]
  {
    TestLayout(functionName, kind, moduleName);
    if kind == Integration {
      IntegrationNoNewline(functionName, moduleName);
    } else {
      UnitNoNewline(functionName, moduleName);
    }
    SplitUnlines(TestLines(functionName, kind, moduleName));
  }
}
