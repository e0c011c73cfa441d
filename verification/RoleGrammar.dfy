/**
 The `properties_from_role` grammar: `field: Type NOTIFY signal { name Role, ... }`, where an
 `Option<...>` around the type marks the field as optional.
 */
module RoleGrammar {
  import opened Tokens
  import opened TypePaths
  import opened Wrappers

  datatype Property = Property(name: string, role: string)

  datatype Role = Role(
    field: string, roleType: TypePath, signal: string, optional: bool, properties: seq<Property>)

  // ---------- The grammar as functions of the tokens ----------

  /** The properties at the front, and what stands behind them. */
  function ParseProperties(ts: seq<Token>): Option<(seq<Property>, seq<Token>)>
    decreases |ts|
  {
    if !PeekIdent(ts) then Some(([], ts))
    else if !PeekIdent(ts[1..]) then None
    else
      var p := Property(ts[0].name, ts[1].name);
      if !Peek(ts[2..], COMMA) then Some(([p], ts[2..]))
      else
        var r := ParseProperties(ts[3..]);
        if r.None? then None else Some(([p] + r.value.0, r.value.1))
  }

  predicate NamesOption(p: Path) { p.segments != [] && p.segments[0].word == Ident("Option") }

  /**
   Whether the type is an `Option`, and the role type then; panics on a type under a self type, and
   on an `Option` of nothing or of something else than a path type.
   */
  function UnwrapOption(t: TypePath): Outcome<(bool, TypePath)> {
    if !t.Unqualified? then Panicked
    else if !NamesOption(t.path) then Parsed((false, t))
    else if IsWrapped(t.path.segments[0]) then Parsed((true, t.path.segments[0].args[0].ty))
    else Panicked
  }

  /** Generic arguments that start with a path type. */
  predicate IsWrapped(s: Segment) { s.Generic? && s.args != [] && s.args[0].TypeArgument? }

  /** What follows the type. */
  function ParseTail(field: string, optional: bool, roleType: TypePath, ts: seq<Token>): Outcome<Role> {
    if !PeekIdent(ts) then Rejected
    else if ts[0].name != "NOTIFY" then Panicked
    else if !PeekIdent(ts[1..]) || |ts| < 3 || !ts[2].Group? || !ts[2].delimiter.Brace? then Rejected
    else
      var properties := ParseProperties(ts[2].inner);
      if properties.None? || properties.value.1 != [] || ts[3..] != [] then Rejected
      else Parsed(Role(field, roleType, ts[1].name, optional, properties.value.0))
  }

  function ParseRole(g: Grammar, ts: seq<Token>): Outcome<Role> {
    if !PeekIdent(ts) || !Peek(ts[1..], COLON) then Rejected
    else
      var t := ParseType(g, ts[2..]);
      if t.None? then Rejected
      else
        match UnwrapOption(t.value.0)
        case Parsed((optional, roleType)) => ParseTail(ts[0].name, optional, roleType, t.value.1)
        case Rejected => Rejected
        case Panicked => Panicked
  }

  // ---------- The parser as written ----------

  function Prepend(properties: seq<Property>, tail: Option<(seq<Property>, seq<Token>)>)
    : Option<(seq<Property>, seq<Token>)>
  {
    if tail.None? then None else Some((properties + tail.value.0, tail.value.1))
  }

  lemma {:induction false} PrependOne(properties: seq<Property>, ts: seq<Token>)
    requires PeekIdent(ts) && PeekIdent(ts[1..])
    ensures var p := Property(ts[0].name, ts[1].name);
      Prepend(properties, ParseProperties(ts)) ==
        if Peek(ts[2..], COMMA) then Prepend(properties + [p], ParseProperties(ts[3..]))
        else Some((properties + [p], ts[2..]))
  {
    var p := Property(ts[0].name, ts[1].name);
    if Peek(ts[2..], COMMA) && ParseProperties(ts[3..]).Some? {
      var rest := ParseProperties(ts[3..]).value.0;
      assert properties + ([p] + rest) == properties + [p] + rest;
    }
  }

  /** The loop over the braces' content; a leftover is for the caller to complain about. */
  method ParsePropertyList(content: ParseBuffer) returns (r: Option<seq<Property>>)
    modifies content
    ensures var all := ParseProperties(old(content.rest));
      && (r.None? <==> all.None?)
      && (r.Some? ==> all.value == (r.value, content.rest))
  {
    var properties: seq<Property> := [];
    ghost var all := ParseProperties(content.rest);
    assert all.Some? ==> [] + all.value.0 == all.value.0;
    while PeekIdent(content.rest)
      invariant all == Prepend(properties, ParseProperties(content.rest))
      decreases |content.rest|
    {
      ghost var ts := content.rest;
      var name := content.ParseIdent();
      var role := content.ParseIdent();
      if role.None? { return None; }
      PrependOne(properties, ts);
      properties := properties + [Property(name.value, role.value)];
      var comma := content.ParseToken(COMMA);
      assert content.rest == if comma then ts[3..] else ts[2..];
      if !comma { return Some(properties); }
    }
    assert properties + [] == properties;
    r := Some(properties);
  }

  /** RoleProperties::parse run by parse2, which rejects tokens that are left over anywhere. */
  method ParseRoleProperties(g: Grammar, tokens: seq<Token>) returns (r: Outcome<Role>)
    ensures r == ParseRole(g, tokens)
  {
    var input := new ParseBuffer(tokens);
    var field := input.ParseIdent();
    if field.None? { return Rejected; }
    var colon := input.ParseToken(COLON);
    if !colon { return Rejected; }
    assert input.rest == tokens[2..];
    var ty := ParseType(g, input.rest);
    if ty.None? { return Rejected; }
    input.rest := ty.value.1;

    if ty.value.0.Qualified? { return Panicked; }
    var first := ty.value.0.path.segments[0];
    var optional, roleType := first.word == Ident("Option"), ty.value.0;
    if optional {
      if first.Plain? || first.args == [] || first.args[0].OtherArgument? { return Panicked; }
      roleType := first.args[0].ty;
    }

    ghost var tail := input.rest;
    var notify := input.ParseIdent();
    if notify.None? { return Rejected; }
    if notify.value != "NOTIFY" { return Panicked; }
    var roleSignal := input.ParseIdent();
    if roleSignal.None? { return Rejected; }
    assert input.rest == tail[2..];
    var braced := input.ParseGroup(Brace);
    if braced.None? { return Rejected; }
    var content := new ParseBuffer(braced.value);
    var properties := ParsePropertyList(content);
    if properties.None? { return Rejected; }
    if content.rest != [] || input.rest != [] { return Rejected; }
    r := Parsed(Role(field.value, roleType, roleSignal.value, optional, properties.value));
  }

  // ---------- Printing ----------

  function PropertiesTokens(properties: seq<Property>, trailing: bool): seq<Token> {
    if properties == [] then []
    else
      [Ident(properties[0].name), Ident(properties[0].role)]
      + (if |properties| > 1 || trailing then [Punct(',')] else [])
      + PropertiesTokens(properties[1..], trailing)
  }

  /** The type as one would write it. */
  function DeclaredType(r: Role): TypePath {
    if r.optional
      then Unqualified(Path(false, [Generic(Ident("Option"), false, [TypeArgument(r.roleType)], false)]))
      else r.roleType
  }

  /** What stands behind the type of a declaration. */
  function RoleTail(r: Role, trailing: bool): seq<Token> {
    [Ident("NOTIFY"), Ident(r.signal), Group(Brace, PropertiesTokens(r.properties, trailing))]
  }

  /** A declaration of the role, with its type spelled as `t`. */
  function SpelledTokens(r: Role, t: TypePath, trailing: bool): seq<Token> {
    [Ident(r.field), Punct(':')] + TypeText(t, RoleTail(r, trailing))
  }

  function RoleTokens(r: Role, trailing: bool): seq<Token> { SpelledTokens(r, DeclaredType(r), trailing) }

  // ---------- Round trips ----------

  lemma {:induction false} PropertiesRoundTrip(properties: seq<Property>, trailing: bool)
    ensures ParseProperties(PropertiesTokens(properties, trailing)) == Some((properties, []))
    decreases |properties|
  {
    if properties != [] {
      var ts, rest := PropertiesTokens(properties, trailing), PropertiesTokens(properties[1..], trailing);
      PropertiesRoundTrip(properties[1..], trailing);
      if |properties| > 1 || trailing {
        assert ts[3..] == rest && ts[2..][0] == COMMA;
        assert properties == [properties[0]] + properties[1..];
      } else {
        assert rest == [] && ts[2..] == [];
        assert properties == [properties[0]];
      }
    }
  }

  /** The property list accepts nothing else: whatever parses to the end is a printing of what it parsed to. */
  lemma {:induction false} PropertiesExact(ts: seq<Token>, properties: seq<Property>)
    ensures ParseProperties(ts) == Some((properties, [])) <==>
      ts == PropertiesTokens(properties, false) || ts == PropertiesTokens(properties, true)
    decreases |ts|
  {
    PropertiesRoundTrip(properties, false);
    PropertiesRoundTrip(properties, true);
    if ParseProperties(ts) == Some((properties, [])) && ts != [] {
      var p := Property(ts[0].name, ts[1].name);
      if Peek(ts[2..], COMMA) {
        var r := ParseProperties(ts[3..]).value;
        assert r.1 == [] && properties[1..] == r.0;
        PropertiesExact(ts[3..], r.0);
        assert ts == [ts[0], ts[1], COMMA] + ts[3..];
        PropertiesCons(p, r.0, ts[3..]);
        assert properties == [p] + r.0;
      } else {
        assert ts == [ts[0], ts[1]] + ts[2..];
        assert [p][1..] == [];
        assert PropertiesTokens([p], false) == [ts[0], ts[1]] + [] + [];
      }
    }
  }

  lemma {:induction false} PropertiesCons(p: Property, rest: seq<Property>, tail: seq<Token>)
    requires tail == PropertiesTokens(rest, false) || tail == PropertiesTokens(rest, true)
    ensures var ts := [Ident(p.name), Ident(p.role), COMMA] + tail;
      ts == PropertiesTokens([p] + rest, false) || ts == PropertiesTokens([p] + rest, true)
  {
    assert ([p] + rest)[1..] == rest;
  }

  // ---------- Whole declarations ----------

  /** A type that starts with `Option` means its first argument, optionally; any other path means itself. */
  predicate MeansType(t: TypePath, optional: bool, roleType: TypePath) {
    && t.Unqualified? && t.path.segments != []
    && var first := t.path.segments[0];
       if first.word != Ident("Option") then !optional && roleType == t
       else optional && first.Generic? && first.args != [] && first.args[0] == TypeArgument(roleType)
  }

  /** Types that mean nothing: those under a self type, and an `Option` that does not start with a path type. */
  predicate MeansNothing(t: TypePath) {
    || t.Qualified?
    || (&& t.Unqualified? && t.path.segments != []
        && var first := t.path.segments[0];
           && first.word == Ident("Option")
           && (first.Generic? && first.args != [] ==> first.args[0].OtherArgument?))
  }

  /** Which types are taken for what, and which make the macro panic. */
  lemma {:induction false} UnwrapExact(t: TypePath, optional: bool, roleType: TypePath)
    requires !t.Parenthesised? && (t.Unqualified? ==> t.path.segments != [])
    ensures UnwrapOption(t) == Parsed((optional, roleType)) <==> MeansType(t, optional, roleType)
    ensures UnwrapOption(t) == Panicked <==> MeansNothing(t)
  {
  }

  /** `t` is a type that can be read in the declaration, and that means the role's type. */
  predicate Declares(g: Grammar, r: Role, t: TypePath, trailing: bool) {
    FitsType(g, t, RoleTail(r, trailing)) && MeansType(t, r.optional, r.roleType)
  }

  ghost predicate Spells(g: Grammar, ts: seq<Token>, r: Role, t: TypePath, trailing: bool) {
    Declares(g, r, t, trailing) && ts == SpelledTokens(r, t, trailing)
  }

  lemma {:induction false} SpelledParses(g: Grammar, r: Role, t: TypePath, trailing: bool)
    requires FitsType(g, t, RoleTail(r, trailing))
    ensures ParseRole(g, SpelledTokens(r, t, trailing)) ==
      match UnwrapOption(t)
      case Parsed((optional, roleType)) => Parsed(r.(optional := optional, roleType := roleType))
      case Rejected => Rejected
      case Panicked => Panicked
  {
    var ts, tail := SpelledTokens(r, t, trailing), RoleTail(r, trailing);
    assert ts[2..] == TypeText(t, tail);
    TypeComplete(g, t, tail);
    PropertiesRoundTrip(r.properties, trailing);
    assert tail[1..][0] == tail[1] && tail[3..] == [];
  }

  /** What an accepted stream looks like behind its type. */
  lemma {:induction false} TailSound(field: string, optional: bool, roleType: TypePath, ts: seq<Token>)
      returns (trailing: bool)
    requires ParseTail(field, optional, roleType, ts).Parsed?
    ensures var r := ParseTail(field, optional, roleType, ts).value;
      ts == RoleTail(r, trailing) && r.field == field && r.optional == optional && r.roleType == roleType
  {
    var r := ParseTail(field, optional, roleType, ts).value;
    PropertiesExact(ts[2].inner, r.properties);
    trailing := ts[2].inner == PropertiesTokens(r.properties, true);
    assert ts == [ts[0], ts[1], ts[2]] + ts[3..];
  }

  lemma {:induction false} RoleSound(g: Grammar, ts: seq<Token>) returns (t: TypePath, trailing: bool)
    requires ParseRole(g, ts).Parsed?
    ensures Spells(g, ts, ParseRole(g, ts).value, t, trailing)
  {
    var r := ParseRole(g, ts).value;
    t := ParseType(g, ts[2..]).value.0;
    TypeSound(g, ts[2..]);
    trailing := TailSound(ts[0].name, r.optional, r.roleType, ParseType(g, ts[2..]).value.1);
    assert ts == [ts[0], ts[1]] + ts[2..];
  }

  /**
   Exactly which streams declare a role: a field, a type in any spelling that means the role's, and
   the signal and properties with or without trailing comma.
   */
  lemma {:induction false} RoleExact(g: Grammar, ts: seq<Token>, r: Role)
    ensures ParseRole(g, ts) == Parsed(r) <==> exists t, trailing :: Spells(g, ts, r, t, trailing)
  {
    if ParseRole(g, ts) == Parsed(r) {
      var t, trailing := RoleSound(g, ts);
      assert Spells(g, ts, r, t, trailing);
    }
    forall t, trailing | Spells(g, ts, r, t, trailing) ensures ParseRole(g, ts) == Parsed(r) {
      SpelledParses(g, r, t, trailing);
    }
  }

  /** The parser gets as far as a type, and panics on it or on the word behind it. */
  ghost predicate PanicsAt(g: Grammar, ts: seq<Token>, field: string, t: TypePath, rest: seq<Token>) {
    && ts == [Ident(field), Punct(':')] + TypeText(t, rest) && FitsType(g, t, rest)
    && (MeansNothing(t) || (PeekIdent(rest) && rest[0].name != "NOTIFY"))
  }

  /** Exactly which streams make the parser panic instead of returning an error. */
  lemma {:induction false} PanicExact(g: Grammar, ts: seq<Token>)
    ensures ParseRole(g, ts).Panicked? <==> exists field, t, rest :: PanicsAt(g, ts, field, t, rest)
  {
    if ParseRole(g, ts).Panicked? {
      var (t, rest) := ParseType(g, ts[2..]).value;
      TypeSound(g, ts[2..]);
      assert ts == [ts[0], ts[1]] + ts[2..];
      assert PanicsAt(g, ts, ts[0].name, t, rest);
    }
    forall field, t, rest | PanicsAt(g, ts, field, t, rest) ensures ParseRole(g, ts).Panicked? {
      assert ts[2..] == TypeText(t, rest);
      TypeComplete(g, t, rest);
    }
  }

  /** A record whose type is declared as written, and whose type alone is not taken for an `Option`. */
  predicate Declarable(r: Role) {
    r.optional || (r.roleType.Unqualified? && !NamesOption(r.roleType.path))
  }

  /**
   Printing a role declaration and parsing it gives the record back, with or without a trailing
   comma, exactly when the type is wrapped in an `Option`, or is a path that does not itself start
   with one and stands under no self type.
   */
  lemma {:induction false} RoleRoundTrip(g: Grammar, r: Role, trailing: bool)
    requires FitsType(g, DeclaredType(r), RoleTail(r, trailing))
    ensures ParseRole(g, RoleTokens(r, trailing)) == Parsed(r) <==> Declarable(r)
  {
    SpelledParses(g, r, DeclaredType(r), trailing);
  }

  /** A type under a self type, and an `Option` of anything but a path type, make the parser panic. */
  lemma {:induction false} BadTypePanics(g: Grammar, field: string, t: TypePath, rest: seq<Token>)
    requires FitsType(g, t, rest)
    requires MeansNothing(t)
    ensures ParseRole(g, [Ident(field), COLON] + TypeText(t, rest)).Panicked?
  {
    PanicExact(g, [Ident(field), COLON] + TypeText(t, rest));
    assert PanicsAt(g, [Ident(field), COLON] + TypeText(t, rest), field, t, rest);
  }
}
