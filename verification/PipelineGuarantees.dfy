/**
 What every expansion of the macro guarantees: its shape, that names used are names defined,
 when it succeeds, and what it then emits.
 */
module PipelineGuarantees {
  import opened Tokens
  import opened AttributeLists
  import opened TypePaths
  import opened RoleGrammar
  import opened QtProperties
  import opened ObservingModels
  import opened ModelMacros
  import opened Outputs
  import opened Wrappers

  // ---------- Shape and names ----------

  lemma {:induction false} InjectedUnannotated(role: Option<Role>)
    ensures forall i :: 0 <= i < |InjectedFields(role)| ==> !Annotated(InjectedFields(role)[i])
  {
    var added := InjectedFields(role);
    forall i | 0 <= i < |added| ensures !Annotated(added[i]) {
      if i < 2 { assert added[i] == BASE_FIELDS[i]; } else { assert added[i] == RoleFields(role)[i - 2]; }
      assert added[i].attrs == [];
    }
  }

  /** The injected fields pass through the literal pass, and only the struct's own fields decide about it. */
  lemma {:induction false} LiteralPassOfInjected(fields: seq<Field>, role: Option<Role>)
    ensures LiteralPass(Injected(fields, role)) ==
      if AllExpandable(fields) then Some((ExpandAll(fields) + InjectedFields(role), AllWrappers(fields)))
      else None
  {
    InjectedUnannotated(role);
    LiteralPassPrefix(fields, InjectedFields(role));
  }

  lemma {:induction false} LiteralPassPrefix(fields: seq<Field>, added: seq<Field>)
    requires forall i :: 0 <= i < |added| ==> !Annotated(added[i])
    ensures LiteralPass(fields + added) ==
      if AllExpandable(fields) then Some((ExpandAll(fields) + added, AllWrappers(fields))) else None
  {
    NothingToWrap(added);
    ExpandableConcat(fields, added);
    if AllExpandable(fields) {
      WrappersConcat(fields, added);
      assert AllWrappers(fields) + [] == AllWrappers(fields);
    }
  }

  lemma {:induction false} ExpandableConcat(a: seq<Field>, b: seq<Field>)
    ensures AllExpandable(a + b) <==> AllExpandable(a) && AllExpandable(b)
    ensures AllExpandable(a + b) ==> ExpandAll(a + b) == ExpandAll(a) + ExpandAll(b)
  {
    var all := a + b;
    assert forall i :: 0 <= i < |a| ==> all[i] == a[i];
    assert forall j :: 0 <= j < |b| ==> all[|a| + j] == b[j];
  }

  /**
   Shape of every expansion: the struct's own fields in order, expanded one by one, then the two
   base fields, then one field per role property, all injected ones untouched.
   */
  lemma {:induction false} PipelineShape(role: Option<Role>, fields: seq<Field>)
    requires ExpandRole(role, fields).Expanded?
    ensures var out, n := ExpandRole(role, fields).fields, |fields|;
      && |out| >= n + 2
      && (forall i :: 0 <= i < n ==> out[i].name == fields[i].name)
      && (forall i :: 0 <= i < n ==> (out[i] == fields[i] <==> !Annotated(fields[i])))
      && out[n].name == "_app" && out[n + 1].name == "_observing_model_registration"
      && out[n..] == InjectedFields(role)
      && FieldNames(out[n + 2..]) == if role.None? then [] else PropertyNames(role.value.properties)
  {
    LiteralPassOfInjected(fields, role);
    LiteralPassShape(fields);
    InjectedShape(role);
    var out, added := ExpandAll(fields) + InjectedFields(role), InjectedFields(role);
    assert out[|fields|..] == added && out[|fields| + 2..] == added[2..];
    assert out[|fields|] == added[0] && out[|fields| + 1] == added[1];
  }

  lemma {:induction false} InjectedShape(role: Option<Role>)
    ensures var added := InjectedFields(role);
      && added[0].name == "_app" && added[1].name == "_observing_model_registration"
      && FieldNames(added[2..]) == if role.None? then [] else PropertyNames(role.value.properties)
  {
    assert InjectedFields(role)[2..] == RoleFields(role);
    if role.Some? { RoleFieldNames(role.value, role.value.properties); }
  }

  function PropertyNames(properties: seq<Property>): seq<string> {
    if properties == [] then [] else [properties[0].name] + PropertyNames(properties[1..])
  }

  lemma {:induction false} RoleFieldNames(role: Role, properties: seq<Property>)
    ensures FieldNames(RoleFieldsOf(role, properties)) == PropertyNames(properties)
  {
    if properties != [] {
      RoleFieldNames(role, properties[1..]);
      assert RoleFieldsOf(role, properties)[1..] == RoleFieldsOf(role, properties[1..]);
    }
  }

  lemma {:induction false} ReferencesConcat(a: seq<Field>, b: seq<Field>)
    ensures AllReferences(a + b) == AllReferences(a) + AllReferences(b)
  {
    if a == [] {
      assert a + b == b;
    } else {
      assert (a + b)[1..] == a[1..] + b;
      ReferencesConcat(a[1..], b);
    }
  }

  /** The getters among the generated methods. */
  function RoleGetters(role: Option<Role>): seq<Method>
    requires GeneratedMethods(role).Some?
  {
    if role.None? then [] else GettersOf(role.value, role.value.properties).value
  }

  lemma {:induction false} InjectedNamesAgree(role: Option<Role>)
    requires GeneratedMethods(role).Some?
    ensures AllReferences(InjectedFields(role)) == [(Write, "set_app")] + Accesses(RoleGetters(role))
  {
    ReferencesConcat(BASE_FIELDS, RoleFields(role));
    BaseReferences();
    if role.Some? { RoleNamesAgree(role.value, role.value.properties); }
  }

  /**
   Names used are names defined, over the whole output: the expanded fields call exactly the
   wrappers, in order, and the injected fields call `set_app` and then exactly the role getters,
   which the generated methods put in front of the methods every model gets.
   */
  lemma {:induction false} PipelineNamesAgree(role: Option<Role>, fields: seq<Field>)
    requires ExpandRole(role, fields).Expanded?
    ensures var r, n := ExpandRole(role, fields), |fields|;
      && |r.fields| >= n
      && AnnotatedReferences(fields, r.fields[..n]) == Accesses(r.wrappers)
      && AllReferences(r.fields[n..]) == [(Write, "set_app")] + Accesses(RoleGetters(role))
      && r.methods == RoleGetters(role) + BUILTINS
  {
    LiteralPassOfInjected(fields, role);
    LiteralNamesAgree(fields);
    InjectedNamesAgree(role);
    var out := ExpandAll(fields) + InjectedFields(role);
    assert out[..|fields|] == ExpandAll(fields) && out[|fields|..] == InjectedFields(role);
    assert role.None? ==> [] + BUILTINS == BUILTINS;
  }

  // ---------- The whole output ----------

  function PropertiesOf(role: Option<Role>): seq<Property> {
    if role.None? then [] else role.value.properties
  }

  /** The struct's own field at a place of the output: untouched, or the property of its annotation. */
  ghost predicate IsOwnField(f: Field, out: Field) {
    if Annotated(f)
      then exists entries, trailing :: PrintedAnnotation(f, entries, trailing) && IsOwnProperty(f, entries, out)
      else out == f
  }

  /** The wrappers of a struct: those of the first field's annotation, if any, and then those of the other fields. */
  ghost predicate AreWrappers(fields: seq<Field>, wrappers: seq<Method>) {
    if fields == [] then wrappers == []
    else if !Annotated(fields[0]) then AreWrappers(fields[1..], wrappers)
    else exists entries, trailing, rest ::
      PrintedAnnotation(fields[0], entries, trailing) && AreWrappers(fields[1..], rest)
      && wrappers == OwnWrappers(fields[0], entries) + rest
  }

  /** The complete output for a role and a struct, without reference to any pass of the macro. */
  ghost predicate ExpandsTo(role: Option<Role>, fields: seq<Field>, r: Expansion) {
    var n, properties := |fields|, PropertiesOf(role);
    && r.Expanded?
    && |r.fields| == n + 2 + |properties| && |r.methods| == |properties| + 4
    && (forall i :: 0 <= i < n ==> IsOwnField(fields[i], r.fields[i]))
    && AreBaseFields(r.fields[n], r.fields[n + 1])
    && (forall i :: 0 <= i < |properties| ==> IsRoleField(role.value, properties[i], r.fields[n + 2 + i]))
    && (forall i :: 0 <= i < |properties| ==> IsRoleGetter(role.value, properties[i], r.methods[i]))
    && AreBuiltins(r.methods[|properties|..])
    && AreWrappers(fields, r.wrappers)
  }

  lemma {:induction false} OwnFieldIs(f: Field)
    requires Expandable(f)
    ensures IsOwnField(f, ExpandField(f))
  {
    ExpandableExact(f);
    if Annotated(f) {
      var entries, trailing :| PrintedAnnotation(f, entries, trailing);
      AnnotationExpands(f, entries, trailing);
    }
  }

  lemma {:induction false} WrappersAre(fields: seq<Field>)
    requires AllExpandable(fields)
    ensures AreWrappers(fields, AllWrappers(fields))
  {
    if fields != [] {
      var f, rest := fields[0], fields[1..];
      WrappersAre(rest);
      ExpandableExact(f);
      if Annotated(f) {
        var entries, trailing :| PrintedAnnotation(f, entries, trailing);
        AnnotationExpands(f, entries, trailing);
        assert AllWrappers(fields) == OwnWrappers(f, entries) + AllWrappers(rest);
      } else {
        assert [] + AllWrappers(rest) == AllWrappers(rest);
      }
    }
  }

  lemma {:induction false} GeneratedMethodsAre(role: Option<Role>)
    requires GeneratedMethods(role).Some?
    ensures var methods, properties := GeneratedMethods(role).value, PropertiesOf(role);
      && |methods| == |properties| + 4
      && (forall i :: 0 <= i < |properties| ==> IsRoleGetter(role.value, properties[i], methods[i]))
      && AreBuiltins(methods[|properties|..])
  {
    BaseFieldsAre();
    if role.Some? {
      RoleMembersExact(role.value);
      var getters := GettersOf(role.value, role.value.properties).value;
      assert (getters + BUILTINS)[|getters|..] == BUILTINS;
    } else {
      assert BUILTINS[0..] == BUILTINS;
    }
  }

  lemma {:induction false} InjectedFieldsAre(role: Option<Role>)
    requires GeneratedMethods(role).Some?
    ensures var added, properties := InjectedFields(role), PropertiesOf(role);
      && |added| == |properties| + 2 && AreBaseFields(added[0], added[1])
      && forall i :: 0 <= i < |properties| ==> IsRoleField(role.value, properties[i], added[2 + i])
  {
    BaseFieldsAre();
    if role.Some? {
      RoleMembersExact(role.value);
      BehindBase(role.value, BASE_FIELDS, RoleFields(role));
    }
  }

  lemma {:induction false} BehindBase(role: Role, base: seq<Field>, own: seq<Field>)
    requires |base| == 2 && |own| == |role.properties|
    requires forall i :: 0 <= i < |own| ==> IsRoleField(role, role.properties[i], own[i])
    ensures forall i :: 0 <= i < |own| ==> IsRoleField(role, role.properties[i], (base + own)[2 + i])
  {
    forall i | 0 <= i < |own| ensures IsRoleField(role, role.properties[i], (base + own)[2 + i]) {
      assert (base + own)[2 + i] == own[i];
    }
  }

  lemma {:induction false} OwnFieldsAre(fields: seq<Field>)
    requires AllExpandable(fields)
    ensures forall i :: 0 <= i < |fields| ==> IsOwnField(fields[i], ExpandAll(fields)[i])
  {
    forall i | 0 <= i < |fields| ensures IsOwnField(fields[i], ExpandAll(fields)[i]) {
      OwnFieldIs(fields[i]);
    }
  }

  /** Parts that are what they have to be make up the whole output. */
  lemma {:induction false} Assembled(role: Option<Role>, fields: seq<Field>, own: seq<Field>, added: seq<Field>,
                                     methods: seq<Method>, wrappers: seq<Method>)
    requires |own| == |fields| && forall i :: 0 <= i < |fields| ==> IsOwnField(fields[i], own[i])
    requires var properties := PropertiesOf(role);
      && |added| == |properties| + 2 && AreBaseFields(added[0], added[1])
      && (forall i :: 0 <= i < |properties| ==> IsRoleField(role.value, properties[i], added[2 + i]))
      && |methods| == |properties| + 4
      && (forall i :: 0 <= i < |properties| ==> IsRoleGetter(role.value, properties[i], methods[i]))
      && AreBuiltins(methods[|properties|..])
    requires AreWrappers(fields, wrappers)
    ensures ExpandsTo(role, fields, Expanded(own + added, methods, wrappers))
  {
    var all, n := own + added, |fields|;
    assert all[n] == added[0] && all[n + 1] == added[1];
    forall i | 0 <= i < |PropertiesOf(role)| ensures IsRoleField(role.value, PropertiesOf(role)[i], all[n + 2 + i]) {
      assert all[n + 2 + i] == added[2 + i];
    }
  }

  /** Every expansion is the output written out for its role and its struct. */
  lemma {:induction false} ExpansionExact(role: Option<Role>, fields: seq<Field>)
    requires ExpandRole(role, fields).Expanded?
    ensures ExpandsTo(role, fields, ExpandRole(role, fields))
  {
    LiteralPassOfInjected(fields, role);
    GeneratedMethodsAre(role);
    InjectedFieldsAre(role);
    WrappersAre(fields);
    OwnFieldsAre(fields);
    Assembled(role, fields, ExpandAll(fields), InjectedFields(role), GeneratedMethods(role).value, AllWrappers(fields));
  }

  // ---------- From the attribute to the expansion ----------

  const ROLE_ATTRIBUTE := "properties_from_role"

  /** The macro refuses exactly the attributes that are no printed list, and structs without named fields. */
  lemma {:induction false} CompileErrorExact(g: Grammar, attr: seq<Token>, fields: Option<seq<Field>>)
    ensures Expand(g, attr, fields).CompileError? <==>
      fields.None? || forall p :: ValidList(g, p) ==> ListTokens(g, p) != attr
  {
    forall p | ValidList(g, p) && ListTokens(g, p) == attr ensures ParseList(g, attr).Some? {
      SplitExact(g, attr, p);
    }
    if ParseList(g, attr).Some? { SplitExact(g, attr, ParseList(g, attr).value); }
  }

  predicate NoRawVariant(properties: seq<Property>) {
    forall i :: 0 <= i < |properties| ==> !IsRaw(properties[i].role)
  }

  /** A printed list is read back, and its segments decide about the role. */
  lemma {:induction false} ListExpands(g: Grammar, list: Punctuated, fields: seq<Field>)
    requires ValidList(g, list)
    ensures var role := PropertiesFromRole(g, list.values);
      Expand(g, ListTokens(g, list), Some(fields)) == if role.Parsed? then ExpandRole(role.value, fields) else Panic
  {
    SplitExact(g, ListTokens(g, list), list);
  }

  /** When a role and a struct expand at all. */
  lemma {:induction false} RoleExpands(role: Option<Role>, fields: seq<Field>)
    ensures var r := ExpandRole(role, fields);
      && (r.Expanded? <==> NoRawVariant(PropertiesOf(role)) && AllWellAnnotated(fields))
      && (if r.Expanded? then ExpandsTo(role, fields, r) else r.Panic?)
  {
    if role.Some? { GettersSucceed(role.value, role.value.properties); }
    LiteralPassOfInjected(fields, role);
    AllExpandableExact(fields);
    if ExpandRole(role, fields).Expanded? { ExpansionExact(role, fields); }
  }

  /** The first segment called `properties_from_role` declares the role, with its type spelled as `t`. */
  ghost predicate DeclaredBy(g: Grammar, segments: seq<Meta>, role: Role, t: TypePath, trailing: bool) {
    var k := FindAttr(segments, ROLE_ATTRIBUTE);
    k < |segments| && segments[k].ListMeta? && Spells(g, segments[k].tokens, role, t, trailing)
  }

  lemma {:induction false} DeclarationFound(g: Grammar, segments: seq<Meta>, role: Role, t: TypePath, trailing: bool)
    requires DeclaredBy(g, segments, role, t, trailing)
    ensures PropertiesFromRole(g, segments) ==
      if AllReadable(segments[..FindAttr(segments, ROLE_ATTRIBUTE)]) then Parsed(Some(role)) else Panicked
  {
    SpelledParses(g, role, t, trailing);
    var k := FindAttr(segments, ROLE_ATTRIBUTE);
    GetFindsFirst(segments, ROLE_ATTRIBUTE);
    var before, upto := segments[..k], segments[..k + 1];
    assert Readable(segments[k]) && upto[k] == segments[k];
    assert forall i :: 0 <= i < k ==> before[i] == upto[i];
  }

  /**
   End to end, whatever other segments stand around it and however its type is spelled: an attribute
   that declares a role expands exactly when the segments in front can be read, no role variant is raw
   and every annotation of the struct is well formed, and then to the fields and methods it declares.
   */
  lemma {:induction false} DeclaredRoleExpands(g: Grammar, list: Punctuated, role: Role, t: TypePath, trailing: bool,
                                               fields: seq<Field>)
    requires ValidList(g, list) && DeclaredBy(g, list.values, role, t, trailing)
    ensures var r := Expand(g, ListTokens(g, list), Some(fields));
      && (r.Expanded? <==>
            && AllReadable(list.values[..FindAttr(list.values, ROLE_ATTRIBUTE)])
            && NoRawVariant(role.properties) && AllWellAnnotated(fields))
      && (if r.Expanded? then r == ExpandRole(Some(role), fields) && ExpandsTo(Some(role), fields, r) else r.Panic?)
  {
    ListExpands(g, list, fields);
    DeclarationFound(g, list.values, role, t, trailing);
    RoleExpands(Some(role), fields);
  }

  ghost predicate DeclaresNothing(g: Grammar, segments: seq<Meta>) {
    && FindAttr(segments, ROLE_ATTRIBUTE) < |segments|
    && forall role, t, trailing :: !DeclaredBy(g, segments, role, t, trailing)
  }

  lemma {:induction false} NothingDeclared(g: Grammar, segments: seq<Meta>)
    requires DeclaresNothing(g, segments)
    ensures PropertiesFromRole(g, segments).Panicked?
  {
    var k := FindAttr(segments, ROLE_ATTRIBUTE);
    GetFindsFirst(segments, ROLE_ATTRIBUTE);
    if AllReadable(segments[..k + 1]) {
      assert segments[..k + 1][k] == segments[k];
      var tokens := segments[k].tokens;
      if ParseRole(g, tokens).Parsed? {
        var t, trailing := RoleSound(g, tokens);
        assert DeclaredBy(g, segments, ParseRole(g, tokens).value, t, trailing);
      }
    }
  }

  /** A `properties_from_role` segment that declares no role makes the macro panic. */
  lemma {:induction false} BadDeclarationPanics(g: Grammar, list: Punctuated, fields: seq<Field>)
    requires ValidList(g, list) && DeclaresNothing(g, list.values)
    ensures Expand(g, ListTokens(g, list), Some(fields)).Panic?
  {
    ListExpands(g, list, fields);
    NothingDeclared(g, list.values);
  }

  /** Without a declaration the struct still gets the base fields and methods, if all segments can be read. */
  lemma {:induction false} UndeclaredExpands(g: Grammar, list: Punctuated, fields: seq<Field>)
    requires ValidList(g, list) && FindAttr(list.values, ROLE_ATTRIBUTE) == |list.values|
    ensures var r := Expand(g, ListTokens(g, list), Some(fields));
      && (r.Expanded? <==> AllReadable(list.values) && AllWellAnnotated(fields))
      && (if r.Expanded? then r == ExpandRole(None, fields) && ExpandsTo(None, fields, r) else r.Panic?)
  {
    ListExpands(g, list, fields);
    GetFindsFirst(list.values, ROLE_ATTRIBUTE);
    RoleExpands(None, fields);
  }
}
