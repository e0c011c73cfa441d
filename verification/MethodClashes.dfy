/**
 When the emitted impl blocks define a method twice, as far as role and annotations decide it.
 */
module MethodClashes {
  import opened Tokens
  import opened AttributeLists
  import opened RoleGrammar
  import opened QtProperties
  import opened ObservingModels
  import opened ModelMacros
  import opened PipelineGuarantees
  import opened Wrappers

  // ---------- Can the emitted methods clash? ----------

  predicate Distinct(names: seq<string>) {
    names == [] || (names[0] !in names[1..] && Distinct(names[1..]))
  }

  /** Whether the output defines some method twice. */
  predicate Clashes(role: Option<Role>, fields: seq<Field>)
    requires ExpandRole(role, fields).Expanded?
  {
    var r := ExpandRole(role, fields);
    !Distinct(MethodNames(r.methods) + MethodNames(r.wrappers))
  }

  predicate Apart(a: seq<string>, b: seq<string>) {
    forall x :: x in a ==> x !in b
  }

  lemma {:induction false} DistinctConcat(a: seq<string>, b: seq<string>)
    ensures Distinct(a + b) <==> Distinct(a) && Distinct(b) && Apart(a, b)
  {
    if a == [] {
      assert a + b == b;
    } else {
      assert (a + b)[1..] == a[1..] + b;
      DistinctConcat(a[1..], b);
      assert forall x :: x in a <==> x == a[0] || x in a[1..];
    }
  }

  /** Distinctness only depends on which positions hold equal names. */
  lemma {:induction false} SameEqualities(x: seq<string>, y: seq<string>)
    requires |x| == |y|
    requires forall i, j :: 0 <= i < j < |x| ==> (x[i] == x[j] <==> y[i] == y[j])
    ensures Distinct(x) <==> Distinct(y)
  {
    if x != [] {
      var u, v := x[1..], y[1..];
      assert forall i :: 0 <= i < |u| ==> u[i] == x[i + 1] && v[i] == y[i + 1];
      SameEqualities(u, v);
      assert x[0] in u <==> y[0] in v;
    }
  }

  /** The READ and WRITE names of the annotations, in order. */
  function AnnotationNames(fields: seq<Field>): seq<string>
    requires AllExpandable(fields)
  {
    if fields == [] then []
    else (if Annotated(fields[0]) then AccessNames(Annotating(fields[0])) else []) + AnnotationNames(fields[1..])
  }

  function AccessNames(p: QtProperty): seq<string> {
    (if p.read.None? then [] else [p.read.value]) + (if p.write.None? then [] else [p.write.value])
  }

  function WrappedAll(names: seq<string>): (r: seq<string>)
    ensures |r| == |names|
    ensures forall i :: 0 <= i < |r| ==> r[i] == Wrapped(names[i])
  {
    seq(|names|, i requires 0 <= i < |names| => Wrapped(names[i]))
  }

  lemma {:induction false} WrappedConcat(a: seq<string>, b: seq<string>)
    ensures WrappedAll(a + b) == WrappedAll(a) + WrappedAll(b)
  {
  }

  lemma {:induction false} FieldWrapperNames(f: Field)
    requires Expandable(f)
    ensures MethodNames(FieldWrappers(f)) == WrappedAll(if Annotated(f) then AccessNames(Annotating(f)) else [])
  {
    if Annotated(f) { WrapperMethodNames(Annotating(f), f.ty); }
  }

  lemma {:induction false} WrapperNames(fields: seq<Field>)
    requires AllExpandable(fields)
    ensures MethodNames(AllWrappers(fields)) == WrappedAll(AnnotationNames(fields))
  {
    if fields != [] {
      var f, rest := fields[0], fields[1..];
      WrapperNames(rest);
      NamesConcat(FieldWrappers(f), AllWrappers(rest));
      FieldWrapperNames(f);
      WrappedConcat(if Annotated(f) then AccessNames(Annotating(f)) else [], AnnotationNames(rest));
    }
  }

  /** A wrapped method clashes with a role getter when it is called what the getter is, minus the underscore. */
  predicate ClashesWithGetter(target: string, property: string) {
    target == "get_role_" + StripRaw(property)
  }

  predicate ClashFree(targets: seq<string>, properties: seq<Property>) {
    forall i, j :: 0 <= i < |targets| && 0 <= j < |properties| ==> !ClashesWithGetter(targets[i], properties[j].name)
  }

  lemma {:induction false} WrappedNames(x: string, y: string, property: string)
    ensures Wrapped(x) == Wrapped(y) <==> x == y
    ensures Wrapped(x) == GetterName(property) <==> ClashesWithGetter(x, property)
    ensures forall i :: 0 <= i < |BUILTINS| ==>
      Wrapped(x) != BUILTINS[i].name && GetterName(property) != BUILTINS[i].name
  {
    assert Wrapped(x)[1..] == x && Wrapped(y)[1..] == y;
    assert GetterName(property)[1..] == "get_role_" + StripRaw(property);
    assert GetterName(property) == "_" + GetterName(property)[1..];
    assert Wrapped(x)[0] == GetterName(property)[0] == '_';
    assert forall i :: 0 <= i < |BUILTINS| ==> BUILTINS[i].name[0] != '_';
  }

  function StrippedNames(properties: seq<Property>): (r: seq<string>)
    ensures |r| == |properties|
    ensures forall i :: 0 <= i < |r| ==> r[i] == StripRaw(properties[i].name)
  {
    seq(|properties|, i requires 0 <= i < |properties| => StripRaw(properties[i].name))
  }

  function GetterNames(properties: seq<Property>): (r: seq<string>)
    ensures |r| == |properties|
    ensures forall i :: 0 <= i < |r| ==> r[i] == GetterName(properties[i].name)
  {
    seq(|properties|, i requires 0 <= i < |properties| => GetterName(properties[i].name))
  }

  /**
   The emitted impl blocks define every method once exactly when the role's properties differ in
   more than a raw marker, no method is named twice in the annotations, and none is named whose
   wrapper would be called like a role getter.
   */
  lemma {:induction false} MethodsDistinct(role: Option<Role>, fields: seq<Field>)
    requires NoRawVariant(PropertiesOf(role)) && AllExpandable(fields)
    ensures ExpandRole(role, fields).Expanded?
    ensures var properties, targets := PropertiesOf(role), AnnotationNames(fields);
      !Clashes(role, fields) <==>
        Distinct(StrippedNames(properties)) && Distinct(targets) && ClashFree(targets, properties)
  {
    ExpansionNames(role, fields);
    NamesDistinct(PropertiesOf(role), AnnotationNames(fields));
  }

  lemma {:induction false} ExpansionNames(role: Option<Role>, fields: seq<Field>)
    requires NoRawVariant(PropertiesOf(role)) && AllExpandable(fields)
    ensures var r := ExpandRole(role, fields);
      && r.Expanded?
      && MethodNames(r.methods) == GetterNames(PropertiesOf(role)) + MethodNames(BUILTINS)
      && MethodNames(r.wrappers) == WrappedAll(AnnotationNames(fields))
  {
    LiteralPassOfInjected(fields, role);
    GeneratedNames(role);
    WrapperNames(fields);
  }

  lemma {:induction false} GeneratedNames(role: Option<Role>)
    requires NoRawVariant(PropertiesOf(role))
    ensures GeneratedMethods(role).Some?
    ensures MethodNames(GeneratedMethods(role).value) == GetterNames(PropertiesOf(role)) + MethodNames(BUILTINS)
  {
    if role.None? {
      assert GetterNames([]) + MethodNames(BUILTINS) == MethodNames(BUILTINS);
    } else {
      var properties := role.value.properties;
      GettersSucceed(role.value, properties);
      RoleNamesAgree(role.value, properties);
      var getters := GettersOf(role.value, properties).value;
      NamesConcat(getters, BUILTINS);
      assert MethodNames(getters) == GetterNames(properties);
    }
  }

  lemma {:induction false} NamesDistinct(properties: seq<Property>, targets: seq<string>)
    ensures Distinct(GetterNames(properties) + MethodNames(BUILTINS) + WrappedAll(targets)) <==>
      Distinct(StrippedNames(properties)) && Distinct(targets) && ClashFree(targets, properties)
  {
    var g, b, w := GetterNames(properties), MethodNames(BUILTINS), WrappedAll(targets);
    GettersDistinct(properties);
    WrappersDistinct(targets);
    BuiltinsApart(properties, targets);
    BuiltinsDistinct();
    GettersApart(properties, targets);
    DistinctConcat(g + b, w);
    DistinctConcat(g, b);
    assert Apart(g + b, w) <==> Apart(g, w) && Apart(b, w);
  }

  lemma {:induction false} GettersDistinct(properties: seq<Property>)
    ensures Distinct(GetterNames(properties)) <==> Distinct(StrippedNames(properties))
  {
    var g, s := GetterNames(properties), StrippedNames(properties);
    forall i, j | 0 <= i < j < |g| ensures g[i] == g[j] <==> s[i] == s[j] {
      SharedGetter(properties[i].name, properties[j].name);
    }
    SameEqualities(g, s);
  }

  lemma {:induction false} WrappersDistinct(targets: seq<string>)
    ensures Distinct(WrappedAll(targets)) <==> Distinct(targets)
  {
    var w := WrappedAll(targets);
    forall i, j | 0 <= i < j < |w| ensures w[i] == w[j] <==> targets[i] == targets[j] {
      WrappedNames(targets[i], targets[j], "");
    }
    SameEqualities(w, targets);
  }

  lemma {:induction false} BuiltinsDistinct()
    ensures Distinct(MethodNames(BUILTINS))
  {
    var b := MethodNames(BUILTINS);
    assert b == ["set_app", "reinit", "storage", "update_interests"];
    assert |b[0]| == 7 && |b[1]| == 6 && |b[2]| == 7 && |b[3]| == 16 && b[0][1] != b[2][1];
    assert Distinct(b[3..]) && Distinct(b[2..]) by {
      assert b[2..][1..] == b[3..] && b[3..][1..] == [];
    }
    assert b[1..][1..] == b[2..];
  }

  lemma {:induction false} BuiltinsApart(properties: seq<Property>, targets: seq<string>)
    ensures Apart(GetterNames(properties), MethodNames(BUILTINS)) && Apart(MethodNames(BUILTINS), WrappedAll(targets))
  {
    var g, b, w := GetterNames(properties), MethodNames(BUILTINS), WrappedAll(targets);
    forall x | x in g ensures x !in b {
      var i :| 0 <= i < |g| && g[i] == x;
      WrappedNames("", "", properties[i].name);
    }
    forall x | x in w ensures x !in b {
      var i :| 0 <= i < |w| && w[i] == x;
      WrappedNames(targets[i], "", "");
    }
  }

  lemma {:induction false} GettersApart(properties: seq<Property>, targets: seq<string>)
    ensures Apart(GetterNames(properties), WrappedAll(targets)) <==> ClashFree(targets, properties)
  {
    var g, w := GetterNames(properties), WrappedAll(targets);
    forall i, j | 0 <= i < |w| && 0 <= j < |g|
      ensures g[j] == w[i] <==> ClashesWithGetter(targets[i], properties[j].name)
    {
      WrappedNames(targets[i], "", properties[j].name);
    }
    if !Apart(g, w) {
      var x :| x in g && x in w;
      var j :| 0 <= j < |g| && g[j] == x;
      var i :| 0 <= i < |w| && w[i] == x;
      assert ClashesWithGetter(targets[i], properties[j].name);
    }
    if !ClashFree(targets, properties) {
      var i, j :| 0 <= i < |w| && 0 <= j < |g| && ClashesWithGetter(targets[i], properties[j].name);
      assert g[j] in g && w[i] in w;
    }
  }

  // ---------- Three clashes ----------

  lemma {:induction false} RepeatedName(names: seq<string>)
    requires |names| >= 2 && names[0] == names[1]
    ensures !Distinct(names)
  {
    assert names[1..][0] == names[1];
  }

  /**
   The properties `kind` and `r#kind` are different tokens to the macro but share one getter. To Rust
   they are one identifier, so that the two injected fields clash as well.
   */
  lemma {:induction false} RawMarkerClashes(role: Role, variant: string, other: string, fields: seq<Field>)
    requires role.properties == [Property("kind", variant), Property("r#kind", other)]
    requires !IsRaw(variant) && !IsRaw(other) && AllExpandable(fields)
    ensures ExpandRole(Some(role), fields).Expanded? && Clashes(Some(role), fields)
  {
    assert "kind"[0] == 'k' && "r#"[0] == 'r' && "r#kind"[2..] == "kind";
    assert StripRaw("kind") == "kind" && StripRaw("r#kind") == "kind";
    RepeatedName(StrippedNames(role.properties));
    MethodsDistinct(Some(role), fields);
  }

  /** A property annotated with a setter alone. */
  function SetterField(name: string, ty: seq<Token>, setter: string): Field {
    var entries := EntriesTokens([(Write, setter)], false);
    Field([], [ListMeta(MetaPath(false, [Ident("qt_property")]), Paren, entries)], name, ty)
  }

  lemma {:induction false} SetterFieldNames(name: string, ty: seq<Token>, setter: string)
    requires !IsRaw(setter)
    ensures var f := SetterField(name, ty, setter);
      Annotated(f) && Expandable(f) && AccessNames(Annotating(f)) == [setter]
  {
    var f := SetterField(name, ty, setter);
    assert IsNamed(f.attrs[0], "qt_property");
    assert FindAttr(f.attrs, "qt_property") == 0;
    EntriesParse([(Write, setter)], false, NOTHING);
    assert [(Write, setter)][1..] == [];
  }

  /** Two properties may name the same setter, but its wrapper is then emitted twice. */
  lemma {:induction false} SharedSetterClashes(role: Option<Role>, a: string, b: string, ty: seq<Token>, setter: string)
    requires NoRawVariant(PropertiesOf(role)) && !IsRaw(setter)
    ensures var fields := [SetterField(a, ty, setter), SetterField(b, ty, setter)];
      ExpandRole(role, fields).Expanded? && Clashes(role, fields)
  {
    var fields := [SetterField(a, ty, setter), SetterField(b, ty, setter)];
    SetterFieldNames(a, ty, setter);
    SetterFieldNames(b, ty, setter);
    assert AllExpandable(fields);
    assert fields[1..] == [fields[1]] && fields[1..][1..] == [];
    assert AnnotationNames(fields[1..]) == [setter] + [];
    assert AnnotationNames(fields) == [setter] + ([setter] + []);
    RepeatedName(AnnotationNames(fields));
    MethodsDistinct(role, fields);
  }

  /** A setter called like a role getter without its underscore is wrapped under the getter's name. */
  lemma {:induction false} GetterTakenClashes(role: Role, ty: seq<Token>, name: string)
    requires role.properties != [] && NoRawVariant(role.properties)
    ensures var fields := [SetterField(name, ty, "get_role_" + StripRaw(role.properties[0].name))];
      ExpandRole(Some(role), fields).Expanded? && Clashes(Some(role), fields)
  {
    var setter := "get_role_" + StripRaw(role.properties[0].name);
    var fields := [SetterField(name, ty, setter)];
    assert setter[0] == 'g' && "r#"[0] == 'r';
    SetterFieldNames(name, ty, setter);
    assert AllExpandable(fields);
    assert fields[1..] == [];
    assert AnnotationNames(fields) == [setter] + [];
    assert ClashesWithGetter(AnnotationNames(fields)[0], role.properties[0].name);
    MethodsDistinct(Some(role), fields);
  }
}
