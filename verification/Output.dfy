/**
 What the macro has to emit for a role and an annotated struct, written out token by token: the
 reference against which the passes are compared.
 */
module Outputs {
  import opened Tokens
  import opened RoleGrammar
  import opened QtProperties
  import opened ObservingModels
  import opened Wrappers

  // ---------- Properties as tokens ----------

  function PairTokens(pairs: seq<(string, string)>): seq<Token> {
    if pairs == [] then [] else [Ident(pairs[0].0), Ident(pairs[0].1)] + PairTokens(pairs[1..])
  }

  /** `qt_property!(ty; NAME value NAME value ...)` */
  function PropertyTokens(ty: seq<Token>, pairs: seq<(string, string)>): seq<Token> {
    [Ident("qt_property"), Punct('!'), Group(Paren, ty + [Punct(';')] + PairTokens(pairs))]
  }

  lemma {:induction false} PairsConcat(a: seq<(string, string)>, b: seq<(string, string)>)
    ensures PairTokens(a + b) == PairTokens(a) + PairTokens(b)
  {
    if a == [] {
      assert a + b == b;
    } else {
      assert (a + b)[1..] == a[1..] + b;
      PairsConcat(a[1..], b);
    }
  }

  lemma {:induction false} OnePair(name: string, value: string)
    ensures PairTokens([(name, value)]) == [Ident(name), Ident(value)]
  {
    assert [(name, value)][1..] == [];
  }

  // ---------- An annotated field ----------

  function Pair(name: string, value: Option<string>): seq<(string, string)> {
    if value.None? then [] else [(name, value.value)]
  }

  function Underscored(name: Option<string>): Option<string> {
    if name.None? then None else Some("_" + name.value)
  }

  /** The property's attributes: READ and WRITE name the wrappers, ALIAS and NOTIFY are passed on. */
  function OwnPairs(entries: seq<(Key, string)>): seq<(string, string)> {
    Pair("READ", Underscored(LastOf(entries, Read))) + (Pair("WRITE", Underscored(LastOf(entries, Write)))
      + (Pair("ALIAS", LastOf(entries, Alias)) + Pair("NOTIFY", LastOf(entries, Notify))))
  }

  /** The annotated field with these entries: a property of the same name and type, without visibility. */
  predicate IsOwnProperty(f: Field, entries: seq<(Key, string)>, out: Field) {
    out == Field([], [], f.name, PropertyTokens(f.ty, OwnPairs(entries)))
  }

  /** Its wrappers: a reader that calls the READ method, then a writer that calls the WRITE method. */
  function OwnWrappers(f: Field, entries: seq<(Key, string)>): seq<Method> {
    (if LastOf(entries, Read).None? then []
     else [ReadWrapper("_" + LastOf(entries, Read).value, f.ty, LastOf(entries, Read).value)])
    + (if LastOf(entries, Write).None? then []
       else [WriteWrapper("_" + LastOf(entries, Write).value, f.ty, LastOf(entries, Write).value)])
  }

  lemma {:induction false} AttrPair(k: Key, name: string, value: Option<string>)
    requires name == match k case Read => "READ" case Write => "WRITE" case Alias => "ALIAS" case Notify => "NOTIFY"
    ensures AttrTokens(k, value) == PairTokens(Pair(name, if k.Read? || k.Write? then Underscored(value) else value))
  {
    if value.Some? { OnePair(name, if k.Read? || k.Write? then "_" + value.value else value.value); }
  }

  lemma {:induction false} AttrsAre(p: QtProperty)
    ensures Attrs(p) == PairTokens(Pair("READ", Underscored(p.read)) + (Pair("WRITE", Underscored(p.write))
      + (Pair("ALIAS", p.alias) + Pair("NOTIFY", p.notify))))
  {
    var r, w := Pair("READ", Underscored(p.read)), Pair("WRITE", Underscored(p.write));
    var a, n := Pair("ALIAS", p.alias), Pair("NOTIFY", p.notify);
    AttrPair(Read, "READ", p.read);
    AttrPair(Write, "WRITE", p.write);
    AttrPair(Alias, "ALIAS", p.alias);
    AttrPair(Notify, "NOTIFY", p.notify);
    PairsConcat(r, w + (a + n));
    PairsConcat(w, a + n);
    PairsConcat(a, n);
  }

  /** An annotation turns its field into that property, and is worth these wrappers. */
  lemma {:induction false} AnnotationExpands(f: Field, entries: seq<(Key, string)>, trailing: bool)
    requires Annotated(f) && PrintedAnnotation(f, entries, trailing)
    ensures Expandable(f)
    ensures IsOwnProperty(f, entries, ExpandField(f)) && FieldWrappers(f) == OwnWrappers(f, entries)
  {
    EntriesParse(entries, trailing, NOTHING);
    AssignAllTakesLast(NOTHING, entries);
    AttrsAre(Annotating(f));
  }

  // ---------- A role ----------

  /** Name of the getter of a property: raw markers are left out. */
  function RoleGetterName(property: string): string {
    "_get_role_" + if |property| >= 2 && property[0] == 'r' && property[1] == '#' then property[2..] else property
  }

  predicate IsRoleField(role: Role, p: Property, out: Field) {
    out == Field([], [], p.name,
      [Ident("qmetaobject"), PathSep]
      + PropertyTokens([Ident("QVariant")], [("READ", RoleGetterName(p.name)), ("NOTIFY", role.signal)]))
  }

  /** The getter of a property evaluates the property's variant of the role type on the role's field. */
  predicate IsRoleGetter(role: Role, p: Property, m: Method) {
    && m.RoleGetter? && m.name == RoleGetterName(p.name) && m.field == role.field
    && m.roleType == role.roleType && m.variant == p.role && m.optional == role.optional
  }

  lemma {:induction false} GetterNameIs(property: string)
    ensures GetterName(property) == RoleGetterName(property)
  {
  }

  lemma {:induction false} RoleFieldIs(role: Role, p: Property)
    ensures IsRoleField(role, p, RoleField(role, p))
  {
    GetterNameIs(p.name);
    var pairs := [("READ", RoleGetterName(p.name)), ("NOTIFY", role.signal)];
    assert pairs[1..] == [("NOTIFY", role.signal)];
    OnePair("NOTIFY", role.signal);
    var attrs := [Ident("READ"), Ident(GetterName(p.name)), Ident("NOTIFY"), Ident(role.signal)];
    assert PairTokens(pairs) == attrs;
    assert PropertyType([Ident("QVariant")], attrs) == PropertyTokens([Ident("QVariant")], pairs);
  }

  /** For every role that expands, each property gets its getter and its field, in order. */
  lemma {:induction false} RoleMembersExact(role: Role)
    requires GettersOf(role, role.properties).Some?
    ensures var getters, fields := GettersOf(role, role.properties).value, RoleFieldsOf(role, role.properties);
      && |getters| == |fields| == |role.properties|
      && forall i :: 0 <= i < |role.properties| ==>
           IsRoleGetter(role, role.properties[i], getters[i]) && IsRoleField(role, role.properties[i], fields[i])
  {
    RoleNamesAgree(role, role.properties);
    var getters, fields := GettersOf(role, role.properties).value, RoleFieldsOf(role, role.properties);
    forall i | 0 <= i < |role.properties|
      ensures IsRoleGetter(role, role.properties[i], getters[i]) && IsRoleField(role, role.properties[i], fields[i])
    {
      GetterNameIs(role.properties[i].name);
      RoleFieldIs(role, role.properties[i]);
    }
  }

  // ---------- What every model gets ----------

  /** The pointer to the application, settable through `set_app`, and the registration. */
  predicate AreBaseFields(app: Field, registration: Field) {
    && app == Field([], [], "_app", PropertyTokens(
         [Ident("QPointer"), Punct('<'), Keyword("crate"), PathSep, Ident("gui"), PathSep, Ident("AppState"),
          Punct('>')],
         [("ALIAS", "app"), ("WRITE", "set_app")]))
    && registration == Field([], [], "_observing_model_registration",
         [Ident("Option"), Punct('<'), Keyword("crate"), PathSep, Ident("model"), PathSep,
          Ident("ObservingModelRegistration"), Punct('<'), Keyword("Self"), Punct('>'), Punct('>')])
  }

  predicate AreBuiltins(methods: seq<Method>) {
    methods == [Builtin("set_app"), Builtin("reinit"), Builtin("storage"), Builtin("update_interests")]
  }

  lemma {:induction false} BaseFieldsAre()
    ensures |BASE_FIELDS| == 2 && AreBaseFields(BASE_FIELDS[0], BASE_FIELDS[1]) && AreBuiltins(BUILTINS)
  {
    var pairs := [("ALIAS", "app"), ("WRITE", "set_app")];
    assert pairs[1..] == [("WRITE", "set_app")];
    OnePair("WRITE", "set_app");
    assert PairTokens(pairs) == [Ident("ALIAS"), Ident("app"), Ident("WRITE"), Ident("set_app")];
    assert CrateType("QPointer", [Ident("gui"), PathSep, Ident("AppState")], [])
        == [Ident("QPointer"), Punct('<'), Keyword("crate"), PathSep, Ident("gui"), PathSep, Ident("AppState"),
            Punct('>')];
  }
}
