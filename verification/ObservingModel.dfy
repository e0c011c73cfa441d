/**
 The passes of the `observing_model` macro over a struct: injected fields, generated methods,
 literal properties, and the pipeline that runs them in order.
 */
module ObservingModels {
  import opened Tokens
  import opened AttributeLists
  import opened RoleGrammar
  import opened QtProperties
  import opened Wrappers

  /** A named field; a rewritten one has neither visibility nor attributes of its own. */
  datatype Field = Field(vis: seq<Token>, attrs: seq<Meta>, name: string, ty: seq<Token>)

  function FieldNames(fields: seq<Field>): (r: seq<string>)
    ensures |r| == |fields|
    ensures forall i :: 0 <= i < |r| ==> r[i] == fields[i].name
  {
    if fields == [] then [] else [fields[0].name] + FieldNames(fields[1..])
  }

  // ---------- Literal properties ----------

  predicate IsNamed(attr: Meta, name: string) {
    attr.path.GetIdent() == Some(name)
  }

  /** An attribute has a name exactly if its path is that one word, with nothing in front. */
  lemma {:induction false} NamedExact(attr: Meta, name: string)
    ensures IsNamed(attr, name) <==>
      attr.path == MetaPath(false, [Ident(name)]) || attr.path == MetaPath(false, [Keyword(name)])
  {
    var words := attr.path.words;
    assert |words| == 1 ==> words == [words[0]];
  }

  /** Position of the first attribute of that name, or the number of attributes. */
  function FindAttr(attrs: seq<Meta>, name: string): (i: nat)
    ensures i <= |attrs|
    ensures forall j :: 0 <= j < i ==> !IsNamed(attrs[j], name)
    ensures i < |attrs| ==> IsNamed(attrs[i], name)
  {
    if attrs == [] || IsNamed(attrs[0], name) then 0 else 1 + FindAttr(attrs[1..], name)
  }

  predicate Annotated(f: Field) { FindAttr(f.attrs, "qt_property") < |f.attrs| }

  function Annotation(f: Field): Meta
    requires Annotated(f)
  {
    f.attrs[FindAttr(f.attrs, "qt_property")]
  }

  /** Annotations that expand without a panic: a list that parses and wraps no raw identifier. */
  predicate Expandable(f: Field) {
    Annotated(f) ==>
      && Annotation(f).ListMeta?
      && ParseEntries(Annotation(f).tokens, NOTHING).Some?
      && Wrappable(ParseEntries(Annotation(f).tokens, NOTHING).value)
  }

  /** The annotation is a printed list of entries, and neither its READ nor its WRITE name is raw. */
  ghost predicate PrintedAnnotation(f: Field, entries: seq<(Key, string)>, trailing: bool)
    requires Annotated(f)
  {
    && Annotation(f).ListMeta? && Annotation(f).tokens == EntriesTokens(entries, trailing)
    && NoneRaw(LastOf(entries, Read)) && NoneRaw(LastOf(entries, Write))
  }

  predicate NoneRaw(name: Option<string>) {
    name.Some? ==> !(|name.value| >= 2 && name.value[0] == 'r' && name.value[1] == '#')
  }

  ghost predicate WellAnnotated(f: Field) {
    Annotated(f) ==> exists entries, trailing :: PrintedAnnotation(f, entries, trailing)
  }

  /** Exactly which annotations can be expanded. */
  lemma {:induction false} ExpandableExact(f: Field)
    ensures Expandable(f) <==> WellAnnotated(f)
  {
    if Annotated(f) && Expandable(f) {
      var entries, trailing := EntriesSound(Annotation(f).tokens, NOTHING);
      AssignAllTakesLast(NOTHING, entries);
      assert PrintedAnnotation(f, entries, trailing);
    }
    if Annotated(f) && WellAnnotated(f) {
      var entries, trailing :| PrintedAnnotation(f, entries, trailing);
      EntriesParse(entries, trailing, NOTHING);
      AssignAllTakesLast(NOTHING, entries);
    }
  }

  ghost predicate AllWellAnnotated(fields: seq<Field>) {
    forall i :: 0 <= i < |fields| ==> WellAnnotated(fields[i])
  }

  lemma {:induction false} AllExpandableExact(fields: seq<Field>)
    ensures AllExpandable(fields) <==> AllWellAnnotated(fields)
  {
    forall i | 0 <= i < |fields| ensures Expandable(fields[i]) <==> WellAnnotated(fields[i]) {
      ExpandableExact(fields[i]);
    }
  }

  function Annotating(f: Field): QtProperty
    requires Annotated(f) && Expandable(f)
  {
    ParseEntries(Annotation(f).tokens, NOTHING).value
  }

  function ExpandField(f: Field): Field
    requires Expandable(f)
  {
    if !Annotated(f) then f else Field([], [], f.name, PropertyType(f.ty, Attrs(Annotating(f))))
  }

  function FieldWrappers(f: Field): seq<Method>
    requires Expandable(f)
  {
    if !Annotated(f) then [] else WrapperMethods(Annotating(f), f.ty)
  }

  predicate AllExpandable(fields: seq<Field>) {
    forall i :: 0 <= i < |fields| ==> Expandable(fields[i])
  }

  function ExpandAll(fields: seq<Field>): (after: seq<Field>)
    requires AllExpandable(fields)
    ensures |after| == |fields|
    ensures forall i :: 0 <= i < |fields| ==> after[i] == ExpandField(fields[i])
  {
    seq(|fields|, i requires 0 <= i < |fields| => ExpandField(fields[i]))
  }

  function AllWrappers(fields: seq<Field>): seq<Method>
    requires AllExpandable(fields)
  {
    if fields == [] then [] else FieldWrappers(fields[0]) + AllWrappers(fields[1..])
  }

  /** The literal pass: fields and wrapper methods, or None where some annotation makes it panic. */
  function LiteralPass(fields: seq<Field>): Option<(seq<Field>, seq<Method>)> {
    if AllExpandable(fields) then Some((ExpandAll(fields), AllWrappers(fields))) else None
  }

  /** The READ and WRITE names of the annotated fields, read off the rewritten fields at the same places. */
  function AnnotatedReferences(before: seq<Field>, after: seq<Field>): seq<(Key, string)>
    requires |before| == |after|
  {
    if before == [] then []
    else (if Annotated(before[0]) then References(after[0].ty) else [])
         + AnnotatedReferences(before[1..], after[1..])
  }

  lemma {:induction false} NamesConcat(a: seq<Method>, b: seq<Method>)
    ensures MethodNames(a + b) == MethodNames(a) + MethodNames(b)
  {
    if a == [] {
      assert a + b == b;
    } else {
      assert (a + b)[1..] == a[1..] + b;
      NamesConcat(a[1..], b);
    }
  }

  /** The rewritten fields call exactly the wrappers that are emitted, in order. */
  lemma {:induction false} LiteralNamesAgree(fields: seq<Field>)
    requires AllExpandable(fields)
    ensures AnnotatedReferences(fields, ExpandAll(fields)) == Accesses(AllWrappers(fields))
  {
    if fields != [] {
      var f, rest := fields[0], fields[1..];
      LiteralNamesAgree(rest);
      assert ExpandAll(fields)[1..] == ExpandAll(rest);
      AccessesConcat(FieldWrappers(f), AllWrappers(rest));
      if Annotated(f) { WrappersAgree(Annotating(f), f.ty); }
    }
  }

  /** Number, order and names of fields survive; exactly the annotated ones change, and none stays annotated. */
  lemma {:induction false} LiteralPassShape(fields: seq<Field>)
    requires LiteralPass(fields).Some?
    ensures var after := LiteralPass(fields).value.0;
      && |after| == |fields|
      && (forall i :: 0 <= i < |fields| ==> after[i].name == fields[i].name && !Annotated(after[i]))
      && (forall i :: 0 <= i < |fields| ==> (after[i] == fields[i] <==> !Annotated(fields[i])))
  {
    var after := ExpandAll(fields);
    forall i | 0 <= i < |fields|
      ensures after[i].name == fields[i].name && !Annotated(after[i])
      ensures after[i] == fields[i] <==> !Annotated(fields[i])
    {
      assert after[i] == ExpandField(fields[i]);
    }
  }

  lemma {:induction false} NothingToWrap(fields: seq<Field>)
    requires forall i :: 0 <= i < |fields| ==> !Annotated(fields[i])
    ensures AllExpandable(fields) && ExpandAll(fields) == fields && AllWrappers(fields) == []
  {
    if fields != [] { NothingToWrap(fields[1..]); }
  }

  /** A second run changes no field and emits no method. */
  lemma {:induction false} LiteralPassIdempotent(fields: seq<Field>)
    requires LiteralPass(fields).Some?
    ensures LiteralPass(LiteralPass(fields).value.0) == Some((LiteralPass(fields).value.0, []))
  {
    LiteralPassShape(fields);
    NothingToWrap(LiteralPass(fields).value.0);
  }

  lemma {:induction false} WrappersConcat(a: seq<Field>, b: seq<Field>)
    requires AllExpandable(a) && AllExpandable(b)
    ensures AllExpandable(a + b) && AllWrappers(a + b) == AllWrappers(a) + AllWrappers(b)
  {
    if a == [] {
      assert a + b == b;
    } else {
      assert (a + b)[1..] == a[1..] + b;
      WrappersConcat(a[1..], b);
      assert FieldWrappers(a[0]) + (AllWrappers(a[1..]) + AllWrappers(b))
          == FieldWrappers(a[0]) + AllWrappers(a[1..]) + AllWrappers(b);
    }
  }

  // ---------- Role properties ----------

  function StripRaw(name: string): string {
    if IsRaw(name) then name[2..] else name
  }

  const GETTER_PREFIX := "_get_role_"

  function GetterName(property: string): string { GETTER_PREFIX + StripRaw(property) }

  /** Two properties share a getter exactly when they differ in nothing but the raw marker. */
  lemma {:induction false} SharedGetter(p: string, q: string)
    ensures GetterName(p) == GetterName(q) <==> StripRaw(p) == StripRaw(q)
  {
    assert StripRaw(p) == GetterName(p)[|GETTER_PREFIX|..];
    assert StripRaw(q) == GetterName(q)[|GETTER_PREFIX|..];
  }

  function RoleField(role: Role, p: Property): Field {
    Field([], [], p.name,
      [Ident("qmetaobject"), PathSep]
      + PropertyType([Ident("QVariant")],
          [Ident("READ"), Ident(GetterName(p.name)), Ident("NOTIFY"), Ident(role.signal)]))
  }

  function RoleFieldsOf(role: Role, properties: seq<Property>): (r: seq<Field>)
    ensures |r| == |properties|
    ensures forall i :: 0 <= i < |r| ==> r[i] == RoleField(role, properties[i])
  {
    if properties == [] then [] else [RoleField(role, properties[0])] + RoleFieldsOf(role, properties[1..])
  }

  function RoleFields(role: Option<Role>): seq<Field> {
    if role.None? then [] else RoleFieldsOf(role.value, role.value.properties)
  }

  function GetterOf(role: Role, p: Property): Method {
    RoleGetter(GetterName(p.name), role.field, role.roleType, p.role, role.optional)
  }

  /** The role getters, or None where naming a raw role variant panics. */
  function GettersOf(role: Role, properties: seq<Property>): Option<seq<Method>> {
    if properties == [] then Some([])
    else if IsRaw(properties[0].role) then None
    else
      var rest := GettersOf(role, properties[1..]);
      if rest.None? then None else Some([GetterOf(role, properties[0])] + rest.value)
  }

  const BUILTINS := [Builtin("set_app"), Builtin("reinit"), Builtin("storage"), Builtin("update_interests")]

  function GeneratedMethods(role: Option<Role>): Option<seq<Method>> {
    if role.None? then Some(BUILTINS)
    else
      var getters := GettersOf(role.value, role.value.properties);
      if getters.None? then None else Some(getters.value + BUILTINS)
  }

  function CrateType(outer: string, path: seq<Token>, args: seq<Token>): seq<Token> {
    [Ident(outer), Punct('<'), Keyword("crate"), PathSep] + path + args + [Punct('>')]
  }

  const BASE_FIELDS: seq<Field> := [
    Field([], [], "_app",
      PropertyType(CrateType("QPointer", [Ident("gui"), PathSep, Ident("AppState")], []),
                   [Ident("ALIAS"), Ident("app"), Ident("WRITE"), Ident("set_app")])),
    Field([], [], "_observing_model_registration",
      CrateType("Option", [Ident("model"), PathSep, Ident("ObservingModelRegistration")],
                [Punct('<'), Keyword("Self"), Punct('>')]))
  ]

  function AllReferences(fields: seq<Field>): seq<(Key, string)> {
    if fields == [] then [] else References(fields[0].ty) + AllReferences(fields[1..])
  }

  lemma {:induction false} RoleFieldReferences(role: Role, p: Property)
    ensures References(RoleField(role, p).ty) == [(Read, GetterName(p.name))]
  {
    var attrs := [Ident("READ"), Ident(GetterName(p.name)), Ident("NOTIFY"), Ident(role.signal)];
    PropertyReferences([Ident("qmetaobject"), PathSep], [Ident("QVariant")], attrs);
    var rest := [Ident("NOTIFY"), Ident(role.signal)];
    assert attrs[2..] == rest && rest[2..] == [];
    assert Called(rest) == [];
    assert Called(attrs) == [(Read, GetterName(p.name))] + Called(rest);
  }

  /** The injected role fields read exactly the generated getters, in order. */
  lemma {:induction false} RoleNamesAgree(role: Role, properties: seq<Property>)
    requires GettersOf(role, properties).Some?
    ensures AllReferences(RoleFieldsOf(role, properties)) == Accesses(GettersOf(role, properties).value)
    ensures |GettersOf(role, properties).value| == |properties|
    ensures forall i :: 0 <= i < |properties| ==> GettersOf(role, properties).value[i] == GetterOf(role, properties[i])
  {
    if properties != [] {
      RoleNamesAgree(role, properties[1..]);
      RoleFieldReferences(role, properties[0]);
      assert RoleFieldsOf(role, properties)[1..] == RoleFieldsOf(role, properties[1..]);
    }
  }

  lemma {:induction false} GettersSucceed(role: Role, properties: seq<Property>)
    ensures GettersOf(role, properties).Some? <==> forall i :: 0 <= i < |properties| ==> !IsRaw(properties[i].role)
  {
    if properties != [] {
      GettersSucceed(role, properties[1..]);
      assert forall i :: 0 < i < |properties| ==> properties[i] == properties[1..][i - 1];
      assert forall i :: 0 <= i < |properties| - 1 ==> properties[1..][i] == properties[i + 1];
    }
  }

  lemma {:induction false} BaseReferences()
    ensures AllReferences(BASE_FIELDS) == [(Write, "set_app")]
  {
    AppReferences();
    var reg := BASE_FIELDS[1].ty;
    assert reg[|reg| - 1] == Punct('>');
    assert References(reg) == [];
    assert BASE_FIELDS[1..] == [BASE_FIELDS[1]] && BASE_FIELDS[1..][1..] == [];
    assert AllReferences([BASE_FIELDS[1]]) == References(reg) + AllReferences([]);
  }

  lemma {:induction false} AppReferences()
    ensures References(BASE_FIELDS[0].ty) == [(Write, "set_app")]
  {
    var attrs := [Ident("ALIAS"), Ident("app"), Ident("WRITE"), Ident("set_app")];
    var ty := CrateType("QPointer", [Ident("gui"), PathSep, Ident("AppState")], []);
    assert [] + PropertyType(ty, attrs) == PropertyType(ty, attrs);
    PropertyReferences([], ty, attrs);
    var rest := [Ident("WRITE"), Ident("set_app")];
    assert attrs[2..] == rest && rest[2..] == [];
    assert Called(rest) == [(Write, "set_app")] + [];
    assert Called(attrs) == [] + Called(rest);
  }
}
