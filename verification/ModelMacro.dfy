/**
 The macro itself: its attribute, the struct it changes in place, and the pipeline of passes.
 */
module ModelMacros {
  import opened Tokens
  import opened AttributeLists
  import opened RoleGrammar
  import opened QtProperties
  import opened ObservingModels
  import opened Wrappers

  // ---------- Reading the attribute ----------

  /**
   ObservingModelAttribute::get, which looks lazily: the tokens of the first segment of that
   name, or a panic at an earlier segment that is no list or has no simple name.
   */
  function Get(segments: seq<Meta>, name: string): Outcome<Option<seq<Token>>> {
    if segments == [] then Parsed(None)
    else if !segments[0].ListMeta? || segments[0].path.GetIdent().None? then Panicked
    else if IsNamed(segments[0], name) then Parsed(Some(segments[0].tokens))
    else Get(segments[1..], name)
  }

  /** ObservingModelAttribute::properties_from_role; a declaration that does not parse is a panic. */
  function PropertiesFromRole(g: Grammar, segments: seq<Meta>): Outcome<Option<Role>> {
    match Get(segments, "properties_from_role")
    case Parsed(None) => Parsed(None)
    case Parsed(Some(tokens)) =>
      (match ParseRole(g, tokens) case Parsed(role) => Parsed(Some(role)) case _ => Panicked)
    case _ => Panicked
  }

  predicate Readable(m: Meta) { m.ListMeta? && m.path.GetIdent().Some? }

  predicate AllReadable(segments: seq<Meta>) {
    forall i :: 0 <= i < |segments| ==> Readable(segments[i])
  }

  /**
   The first segment of the name decides, provided it and everything in front of it can be read;
   where no segment has the name, all of them have to be readable.
   */
  lemma {:induction false} GetFindsFirst(segments: seq<Meta>, name: string)
    ensures var k := FindAttr(segments, name);
      Get(segments, name) ==
        if k == |segments| then if AllReadable(segments) then Parsed(None) else Panicked
        else if AllReadable(segments[..k + 1]) then Parsed(Some(segments[k].tokens)) else Panicked
  {
    var k := FindAttr(segments, name);
    if segments != [] && k > 0 {
      var rest := segments[1..];
      GetFindsFirst(rest, name);
      ReadableStep(segments[0], rest);
      if k < |segments| {
        ReadableStep(segments[0], rest[..k]);
        assert segments[..k + 1] == [segments[0]] + rest[..k];
      }
      assert segments == [segments[0]] + rest;
    } else if segments != [] {
      assert segments[..1] == [segments[0]];
    }
  }

  lemma {:induction false} ReadableStep(m: Meta, rest: seq<Meta>)
    ensures AllReadable([m] + rest) <==> Readable(m) && AllReadable(rest)
  {
    var all := [m] + rest;
    if AllReadable(all) {
      forall i | 0 <= i < |rest| ensures Readable(rest[i]) { assert all[i + 1] == rest[i]; }
      assert all[0] == m;
    }
  }

  // ---------- The struct and its passes ----------

  class ItemStruct {
    const name: string
    const named: bool
    var fields: seq<Field>

    constructor (name: string, named: bool, fields: seq<Field>)
      ensures this.name == name && this.named == named && this.fields == fields
    {
      this.name, this.named, this.fields := name, named, fields;
    }

    method InjectBaseFields()
      modifies this
      ensures fields == old(fields) + BASE_FIELDS
    {
      fields := fields + BASE_FIELDS;
    }

    /** False stands for the panic of an attribute that cannot be read. */
    method InjectRoleFields(g: Grammar, attr: seq<Meta>) returns (ok: bool)
      modifies this
      ensures ok == PropertiesFromRole(g, attr).Parsed?
      ensures ok ==> fields == old(fields) + RoleFields(PropertiesFromRole(g, attr).value)
    {
      var parsed := PropertiesFromRole(g, attr);
      if !parsed.Parsed? { return false; }
      ok := true;
      var role := parsed.value;
      assert fields + [] == fields;
      if role.None? { return; }
      if role.value.properties == [] { return; }
      PushRoleFields(role.value);
    }

    /** The loop over the role's properties. */
    method PushRoleFields(role: Role)
      modifies this
      ensures fields == old(fields) + RoleFieldsOf(role, role.properties)
    {
      ghost var pushed := RoleFieldsOf(role, role.properties);
      var i := 0;
      assert fields == old(fields) + pushed[..0];
      while i < |role.properties|
        invariant 0 <= i <= |role.properties|
        invariant fields == old(fields) + pushed[..i]
      {
        var field := MakeRoleField(role, role.properties[i]);
        assert pushed[..i + 1] == pushed[..i] + [field];
        fields := fields + [field];
        i := i + 1;
      }
      assert pushed[..i] == pushed;
    }

    method InjectStructFields(g: Grammar, attr: seq<Meta>) returns (ok: bool)
      modifies this
      ensures ok == PropertiesFromRole(g, attr).Parsed?
      ensures ok ==> fields == Injected(old(fields), PropertiesFromRole(g, attr).value)
    {
      InjectBaseFields();
      ok := InjectRoleFields(g, attr);
      if ok {
        InjectedInOrder(old(fields), PropertiesFromRole(g, attr).value);
      }
    }

    /** None stands for a panic: an unreadable attribute or a raw role variant. */
    method GenerateMethods(g: Grammar, attr: seq<Meta>) returns (r: Option<seq<Method>>)
      ensures var role := PropertiesFromRole(g, attr);
        r == if role.Parsed? then GeneratedMethods(role.value) else None
    {
      var parsed := PropertiesFromRole(g, attr);
      if !parsed.Parsed? { return None; }
      var propertyGetters: seq<Method> := [];
      if parsed.value.Some? {
        var getters := PushGetters(parsed.value.value);
        if getters.None? { return None; }
        propertyGetters := getters.value;
      }
      assert [] + BUILTINS == BUILTINS;
      r := Some(propertyGetters + BUILTINS);
    }

    /** The loop over the role's properties. */
    method PushGetters(role: Role) returns (r: Option<seq<Method>>)
      ensures r == GettersOf(role, role.properties)
    {
      var propertyGetters: seq<Method> := [];
      ghost var all := GettersOf(role, role.properties);
      assert role.properties[0..] == role.properties;
      assert all.Some? ==> [] + all.value == all.value;
      var i := 0;
      while i < |role.properties|
        invariant 0 <= i <= |role.properties|
        invariant all == Prefixed(propertyGetters, GettersOf(role, role.properties[i..]))
      {
        var property, variant := role.properties[i].name, role.properties[i].role;
        GettersStep(propertyGetters, role, i);
        if IsRaw(variant) { return None; }
        var getter := "_get_role_" + (if "r#" <= property then property[2..] else property);
        assert getter == GetterName(property);
        propertyGetters := propertyGetters + [RoleGetter(getter, role.field, role.roleType, variant, role.optional)];
        i := i + 1;
      }
      assert propertyGetters + [] == propertyGetters;
      r := Some(propertyGetters);
    }

    /** None stands for the panic of an annotation that cannot be expanded. */
    method InjectLiteralProperties() returns (r: Option<seq<Method>>)
      modifies this
      ensures r.Some? <==> LiteralPass(old(fields)).Some?
      ensures r.Some? ==> LiteralPass(old(fields)) == Some((fields, r.value))
    {
      var methods: seq<Method> := [];
      ghost var before := fields;
      assert before[..0] == [];
      var i := 0;
      while i < |fields|
        invariant 0 <= i <= |fields| == |before|
        invariant AllExpandable(before[..i]) && methods == AllWrappers(before[..i])
        invariant forall j :: 0 <= j < i ==> fields[j] == ExpandField(before[j])
        invariant forall j :: i <= j < |before| ==> fields[j] == before[j]
      {
        var expanded := ExpandLiteral(fields[i]);
        if expanded.None? { return None; }
        OneMoreExpanded(before, i);
        methods := methods + expanded.value.1;
        fields := fields[i := expanded.value.0];
        i := i + 1;
      }
      assert before[..i] == before;
      assert fields == ExpandAll(before);
      r := Some(methods);
    }
  }

  method MakeRoleField(role: Role, p: Property) returns (field: Field)
    ensures field == RoleField(role, p)
  {
    var property := p.name;
    var getter := "_get_role_" + (if "r#" <= property then property[2..] else property);
    assert getter == GetterName(property);
    field := Field([], [], property,
      [Ident("qmetaobject"), PathSep]
      + PropertyType([Ident("QVariant")],
          [Ident("READ"), Ident(getter), Ident("NOTIFY"), Ident(role.signal)]));
  }

  /** The loop's work on one field; None stands for a panic. */
  method ExpandLiteral(field: Field) returns (r: Option<(Field, seq<Method>)>)
    ensures r.Some? <==> Expandable(field)
    ensures r.Some? ==> r.value == (ExpandField(field), FieldWrappers(field))
  {
    var attr, rest := ExtractFieldAttr(field, "qt_property");
    if attr.None? { return Some((field, [])); }
    if !attr.value.ListMeta? { return None; }
    var property := ParseQtProperty(attr.value.tokens);
    if property.None? || !Wrappable(property.value) { return None; }
    r := Some((Field([], [], field.name, PropertyType(field.ty, Attrs(property.value))),
               WrapperMethods(property.value, field.ty)));
  }

  lemma {:induction false} OneMoreExpanded(fields: seq<Field>, i: nat)
    requires i < |fields| && AllExpandable(fields[..i]) && Expandable(fields[i])
    ensures AllExpandable(fields[..i + 1])
    ensures AllWrappers(fields[..i + 1]) == AllWrappers(fields[..i]) + FieldWrappers(fields[i])
  {
    assert fields[..i + 1] == fields[..i] + [fields[i]];
    WrappersConcat(fields[..i], [fields[i]]);
    assert [fields[i]][1..] == [];
    assert AllWrappers([fields[i]]) == FieldWrappers(fields[i]) + [];
  }

  /** Takes the first attribute of a name off a field. */
  method ExtractFieldAttr(field: Field, propertyName: string) returns (attr: Option<Meta>, rest: Field)
    ensures var k := FindAttr(field.attrs, propertyName);
      if k == |field.attrs| then attr.None? && rest == field
      else attr == Some(field.attrs[k]) && rest == field.(attrs := field.attrs[..k] + field.attrs[k + 1..])
  {
    var idx := 0;
    while idx < |field.attrs| && !IsNamed(field.attrs[idx], propertyName)
      invariant 0 <= idx <= |field.attrs|
      invariant forall j :: 0 <= j < idx ==> !IsNamed(field.attrs[j], propertyName)
    {
      idx := idx + 1;
    }
    FirstIsUnique(field.attrs, propertyName, idx);
    if idx == |field.attrs| { return None, field; }
    attr, rest := Some(field.attrs[idx]), field.(attrs := field.attrs[..idx] + field.attrs[idx + 1..]);
  }

  lemma {:induction false} FirstIsUnique(attrs: seq<Meta>, name: string, idx: nat)
    requires idx <= |attrs| && forall j :: 0 <= j < idx ==> !IsNamed(attrs[j], name)
    requires idx < |attrs| ==> IsNamed(attrs[idx], name)
    ensures FindAttr(attrs, name) == idx
  {
    var k := FindAttr(attrs, name);
    assert !(k < idx) && !(idx < k);
  }

  function Prefixed(getters: seq<Method>, rest: Option<seq<Method>>): Option<seq<Method>> {
    if rest.None? then None else Some(getters + rest.value)
  }

  lemma {:induction false} GettersStep(getters: seq<Method>, role: Role, i: nat)
    requires i < |role.properties|
    ensures Prefixed(getters, GettersOf(role, role.properties[i..])) ==
      if IsRaw(role.properties[i].role) then None
      else Prefixed(getters + [GetterOf(role, role.properties[i])], GettersOf(role, role.properties[i + 1..]))
  {
    var tail := role.properties[i..];
    assert tail[0] == role.properties[i] && tail[1..] == role.properties[i + 1..];
    var rest := GettersOf(role, role.properties[i + 1..]);
    if rest.Some? {
      var g := GetterOf(role, role.properties[i]);
      assert getters + ([g] + rest.value) == getters + [g] + rest.value;
    }
  }

  // ---------- The pipeline ----------

  datatype Expansion =
    | Expanded(fields: seq<Field>, methods: seq<Method>, wrappers: seq<Method>)
    | CompileError
    | Panic

  /** The fields every model gets, then those of the role. */
  function InjectedFields(role: Option<Role>): (added: seq<Field>)
    ensures |added| >= 2
  {
    BASE_FIELDS + RoleFields(role)
  }

  function Injected(fields: seq<Field>, role: Option<Role>): seq<Field> {
    fields + InjectedFields(role)
  }

  lemma {:induction false} InjectedInOrder(fields: seq<Field>, role: Option<Role>)
    ensures fields + BASE_FIELDS + RoleFields(role) == Injected(fields, role)
  {
    var base, added := BASE_FIELDS, RoleFields(role);
    assert fields + base + added == fields + (base + added);
  }

  function ExpandRole(role: Option<Role>, fields: seq<Field>): Expansion {
    var methods, literal := GeneratedMethods(role), LiteralPass(Injected(fields, role));
    if methods.None? || literal.None? then Panic
    else Expanded(literal.value.0, methods.value, literal.value.1)
  }

  /** What the macro makes of an attribute and the named fields of a struct, None for other structs. */
  function Expand(g: Grammar, attr: seq<Token>, fields: Option<seq<Field>>): Expansion {
    var list := ParseList(g, attr);
    if list.None? || fields.None? then CompileError
    else
      var role := PropertiesFromRole(g, list.value.values);
      if role.Parsed? then ExpandRole(role.value, fields.value) else Panic
  }

  method ObservingModel(g: Grammar, attr: seq<Token>, strukt: ItemStruct) returns (r: Expansion)
    modifies strukt
    ensures r == Expand(g, attr, if strukt.named then Some(old(strukt.fields)) else None)
    ensures r.Expanded? ==> strukt.fields == r.fields
  {
    var input := new ParseBuffer(attr);
    var list := ParseAttribute(g, input);
    if list.None? || !strukt.named { return CompileError; }
    r := RunPasses(g, list.value.values, strukt);
  }

  method RunPasses(g: Grammar, segments: seq<Meta>, strukt: ItemStruct) returns (r: Expansion)
    modifies strukt
    ensures var role := PropertiesFromRole(g, segments);
      r == if role.Parsed? then ExpandRole(role.value, old(strukt.fields)) else Panic
    ensures r.Expanded? ==> strukt.fields == r.fields
  {
    ghost var fields, role := strukt.fields, PropertiesFromRole(g, segments);
    var ok := strukt.InjectStructFields(g, segments);
    if !ok { return Panic; }
    var methods := strukt.GenerateMethods(g, segments);
    if methods.None? { return Panic; }
    var wrappers := strukt.InjectLiteralProperties();
    if wrappers.None? { return Panic; }
    r := Expanded(strukt.fields, methods.value, wrappers.value);
  }
}
