/**
 The `#[qt_property(READ: a, WRITE: b, ...)]` grammar, and what a parsed annotation turns into:
 the property's own attributes and the wrapper methods they refer to.
 */
module QtProperties {
  import opened Tokens
  import opened TypePaths
  import opened Wrappers

  datatype Key = Read | Write | Alias | Notify

  datatype QtProperty = QtProperty(
    read: Option<string>, write: Option<string>, alias: Option<string>, notify: Option<string>)

  const NOTHING := QtProperty(None, None, None, None)

  function KeyName(k: Key): string {
    match k case Read => "READ" case Write => "WRITE" case Alias => "ALIAS" case Notify => "NOTIFY"
  }

  function KeyOf(name: string): Option<Key> {
    if name == "READ" then Some(Read) else if name == "WRITE" then Some(Write)
    else if name == "ALIAS" then Some(Alias) else if name == "NOTIFY" then Some(Notify) else None
  }

  function Assign(p: QtProperty, k: Key, name: string): QtProperty {
    match k
    case Read => p.(read := Some(name))
    case Write => p.(write := Some(name))
    case Alias => p.(alias := Some(name))
    case Notify => p.(notify := Some(name))
  }

  /** The annotation parser from some point on; None is any of its failures, all of which end in a panic. */
  function ParseEntries(ts: seq<Token>, sofar: QtProperty): Option<QtProperty>
    decreases |ts|
  {
    if ts == [] then Some(sofar)
    else if !PeekIdent(ts) || !Peek(ts[1..], COLON) || KeyOf(ts[0].name).None? || !PeekIdent(ts[2..]) then None
    else
      var p := Assign(sofar, KeyOf(ts[0].name).value, ts[2].name);
      if Peek(ts[3..], COMMA) then ParseEntries(ts[4..], p)
      else if ts[3..] == [] then Some(p) else None
  }

  method ParseQtProperty(tokens: seq<Token>) returns (r: Option<QtProperty>)
    ensures r == ParseEntries(tokens, NOTHING)
  {
    var input := new ParseBuffer(tokens);
    var read: Option<string>, write: Option<string>, alias: Option<string>, notify: Option<string>
      := None, None, None, None;
    while input.rest != []
      invariant ParseEntries(tokens, NOTHING) == ParseEntries(input.rest, QtProperty(read, write, alias, notify))
      decreases |input.rest|
    {
      ghost var ts := input.rest;
      var key := input.ParseIdent();
      if key.None? { return None; }
      var colon := input.ParseToken(COLON);
      if !colon { return None; }
      assert input.rest == ts[2..];
      if key.value !in {"READ", "WRITE", "ALIAS", "NOTIFY"} { return None; }
      var name := input.ParseIdent();
      if name.None? { return None; }
      assert input.rest == ts[3..];
      if key.value == "READ" {
        read := name;
      } else if key.value == "WRITE" {
        write := name;
      } else if key.value == "ALIAS" {
        alias := name;
      } else {
        notify := name;
      }
      var comma := input.ParseToken(COMMA);
      if !comma {
        if input.rest != [] { return None; }
        return Some(QtProperty(read, write, alias, notify));
      }
      assert input.rest == ts[4..];
    }
    r := Some(QtProperty(read, write, alias, notify));
  }

  // ---------- Round trip ----------

  function EntriesTokens(entries: seq<(Key, string)>, trailing: bool): seq<Token> {
    if entries == [] then []
    else
      [Ident(KeyName(entries[0].0)), Punct(':'), Ident(entries[0].1)]
      + (if |entries| > 1 || trailing then [Punct(',')] else [])
      + EntriesTokens(entries[1..], trailing)
  }

  function AssignAll(p: QtProperty, entries: seq<(Key, string)>): QtProperty
    decreases |entries|
  {
    if entries == [] then p else AssignAll(Assign(p, entries[0].0, entries[0].1), entries[1..])
  }

  lemma {:induction false} KeyNames(k: Key)
    ensures KeyOf(KeyName(k)) == Some(k)
  {
  }

  lemma {:induction false} EntryParses(k: Key, name: string, behind: seq<Token>, p: QtProperty)
    ensures var ts := [Ident(KeyName(k)), COLON, Ident(name)] + behind;
      ParseEntries(ts, p) ==
        if behind == [] then Some(Assign(p, k, name))
        else if behind[0] == COMMA then ParseEntries(behind[1..], Assign(p, k, name)) else None
  {
    var ts := [Ident(KeyName(k)), COLON, Ident(name)] + behind;
    KeyNames(k);
    assert ts[1..][0] == COLON && ts[2..][0] == Ident(name) && ts[3..] == behind;
    assert behind != [] ==> ts[4..] == behind[1..];
  }

  /** Any list of entries is accepted, in any order, repeated or not; the last entry of a key wins. */
  lemma {:induction false} EntriesParse(entries: seq<(Key, string)>, trailing: bool, p: QtProperty)
    ensures ParseEntries(EntriesTokens(entries, trailing), p) == Some(AssignAll(p, entries))
    decreases |entries|
  {
    if entries != [] {
      var rest := EntriesTokens(entries[1..], trailing);
      var behind := (if |entries| > 1 || trailing then [COMMA] else []) + rest;
      EntriesParse(entries[1..], trailing, Assign(p, entries[0].0, entries[0].1));
      EntryParses(entries[0].0, entries[0].1, behind, p);
      EntriesText(entries, trailing);
      assert behind != [] ==> behind[1..] == rest;
    }
  }

  lemma {:induction false} EntriesText(entries: seq<(Key, string)>, trailing: bool)
    requires entries != []
    ensures EntriesTokens(entries, trailing) ==
      [Ident(KeyName(entries[0].0)), COLON, Ident(entries[0].1)]
      + ((if |entries| > 1 || trailing then [COMMA] else []) + EntriesTokens(entries[1..], trailing))
  {
    var a, b := [Ident(KeyName(entries[0].0)), COLON, Ident(entries[0].1)], EntriesTokens(entries[1..], trailing);
    var c: seq<Token> := if |entries| > 1 || trailing then [COMMA] else [];
    assert a + c + b == a + (c + b);
  }

  /** The first entry of an accepted annotation, and what the parser does behind it. */
  lemma {:induction false} EntryShape(ts: seq<Token>, p: QtProperty)
    requires ts != [] && ParseEntries(ts, p).Some?
    ensures |ts| >= 3 && ts[0].Ident? && KeyOf(ts[0].name).Some? && ts[2].Ident? && (|ts| == 3 || ts[3] == COMMA)
    ensures ts[..3] == [Ident(KeyName(KeyOf(ts[0].name).value)), COLON, Ident(ts[2].name)]
    ensures var q := Assign(p, KeyOf(ts[0].name).value, ts[2].name);
      ParseEntries(ts, p) == if |ts| == 3 then Some(q) else ParseEntries(ts[4..], q)
  {
    assert ts[1..][0] == ts[1] && ts[2..][0] == ts[2];
    assert |ts| > 3 ==> ts[3..][0] == ts[3];
  }

  /** And nothing else is accepted: the entries can be read off the tokens. */
  lemma {:induction false} EntriesSound(ts: seq<Token>, p: QtProperty)
      returns (entries: seq<(Key, string)>, trailing: bool)
    requires ParseEntries(ts, p).Some?
    ensures ts == EntriesTokens(entries, trailing) && ParseEntries(ts, p).value == AssignAll(p, entries)
    decreases |ts|
  {
    if ts == [] { return [], false; }
    EntryShape(ts, p);
    var k, name := KeyOf(ts[0].name).value, ts[2].name;
    if |ts| == 3 {
      entries, trailing := [(k, name)], false;
      assert entries[1..] == [] && ts == ts[..3];
    } else {
      var rest, more := EntriesSound(ts[4..], Assign(p, k, name));
      entries, trailing := [(k, name)] + rest, more || rest == [];
      assert entries[1..] == rest && ts == ts[..3] + ([COMMA] + ts[4..]);
    }
    EntriesText(entries, trailing);
  }

  /** The last entry of a key, if there is one. */
  function LastOf(entries: seq<(Key, string)>, k: Key): Option<string> {
    if entries == [] then None
    else if LastOf(entries[1..], k).Some? then LastOf(entries[1..], k)
    else if entries[0].0 == k then Some(entries[0].1) else None
  }

  lemma {:induction false} AssignAllTakesLast(p: QtProperty, entries: seq<(Key, string)>)
    ensures var q := AssignAll(p, entries);
      && q.read == (if LastOf(entries, Read).Some? then LastOf(entries, Read) else p.read)
      && q.write == (if LastOf(entries, Write).Some? then LastOf(entries, Write) else p.write)
      && q.alias == (if LastOf(entries, Alias).Some? then LastOf(entries, Alias) else p.alias)
      && q.notify == (if LastOf(entries, Notify).Some? then LastOf(entries, Notify) else p.notify)
    decreases |entries|
  {
    if entries != [] { AssignAllTakesLast(Assign(p, entries[0].0, entries[0].1), entries[1..]); }
  }

  /** The tokens are a printed list of entries that comes to this property. */
  ghost predicate Annotates(ts: seq<Token>, entries: seq<(Key, string)>, trailing: bool, q: QtProperty) {
    && ts == EntriesTokens(entries, trailing)
    && q == QtProperty(LastOf(entries, Read), LastOf(entries, Write), LastOf(entries, Alias), LastOf(entries, Notify))
  }

  /** Exactly which annotations are accepted, and with which result. */
  lemma {:induction false} EntriesExact(ts: seq<Token>, q: QtProperty)
    ensures ParseEntries(ts, NOTHING) == Some(q) <==> exists entries, trailing :: Annotates(ts, entries, trailing, q)
  {
    if ParseEntries(ts, NOTHING) == Some(q) {
      var entries, trailing := EntriesSound(ts, NOTHING);
      AssignAllTakesLast(NOTHING, entries);
      assert Annotates(ts, entries, trailing, q);
    }
    forall entries, trailing | Annotates(ts, entries, trailing, q) ensures ParseEntries(ts, NOTHING) == Some(q) {
      EntriesParse(entries, trailing, NOTHING);
      AssignAllTakesLast(NOTHING, entries);
    }
  }

  function Entry(k: Key, name: Option<string>): seq<(Key, string)> {
    if name.None? then [] else [(k, name.value)]
  }

  function EntriesOf(p: QtProperty): seq<(Key, string)> {
    Entry(Read, p.read) + Entry(Write, p.write) + Entry(Alias, p.alias) + Entry(Notify, p.notify)
  }

  lemma {:induction false} AssignAllConcat(p: QtProperty, a: seq<(Key, string)>, b: seq<(Key, string)>)
    ensures AssignAll(p, a + b) == AssignAll(AssignAll(p, a), b)
    decreases |a|
  {
    if a == [] {
      assert a + b == b;
    } else {
      assert (a + b)[1..] == a[1..] + b;
      AssignAllConcat(Assign(p, a[0].0, a[0].1), a[1..], b);
    }
  }

  lemma {:induction false} AssignEntry(p: QtProperty, k: Key, name: Option<string>)
    ensures AssignAll(p, Entry(k, name)) == if name.None? then p else Assign(p, k, name.value)
  {
  }

  lemma {:induction false} AssignParts(a: seq<(Key, string)>, b: seq<(Key, string)>, c: seq<(Key, string)>,
                                       d: seq<(Key, string)>)
    ensures AssignAll(NOTHING, a + b + c + d) ==
      AssignAll(AssignAll(AssignAll(AssignAll(NOTHING, a), b), c), d)
  {
    AssignAllConcat(NOTHING, a + b + c, d);
    AssignAllConcat(NOTHING, a + b, c);
    AssignAllConcat(NOTHING, a, b);
  }

  lemma {:induction false} EntriesGiveProperty(p: QtProperty)
    ensures AssignAll(NOTHING, EntriesOf(p)) == p
  {
    AssignParts(Entry(Read, p.read), Entry(Write, p.write), Entry(Alias, p.alias), Entry(Notify, p.notify));
    var p1 := NOTHING.(read := p.read);
    AssignEntry(NOTHING, Read, p.read);
    AssignEntry(p1, Write, p.write);
    AssignEntry(p1.(write := p.write), Alias, p.alias);
    AssignEntry(p1.(write := p.write, alias := p.alias), Notify, p.notify);
  }

  /** Printing an annotation and parsing it gives the same property. */
  lemma {:induction false} QtRoundTrip(p: QtProperty, trailing: bool)
    ensures ParseEntries(EntriesTokens(EntriesOf(p), trailing), NOTHING) == Some(p)
  {
    EntriesParse(EntriesOf(p), trailing, NOTHING);
    EntriesGiveProperty(p);
  }

  // ---------- What an annotation turns into ----------

  /** A raw identifier, as its own string form shows. */
  predicate IsRaw(name: string) { "r#" <= name }

  /** Name of the wrapper around a getter or setter; creating it panics for a raw identifier. */
  function Wrapped(name: string): string { "_" + name }

  predicate Wrappable(p: QtProperty) {
    !(p.read.Some? && IsRaw(p.read.value)) && !(p.write.Some? && IsRaw(p.write.value))
  }

  function AttrTokens(k: Key, name: Option<string>): seq<Token> {
    if name.None? then []
    else [Ident(KeyName(k)), Ident(if k.Read? || k.Write? then Wrapped(name.value) else name.value)]
  }

  /** QtProperty::attrs */
  function Attrs(p: QtProperty): seq<Token> {
    AttrTokens(Read, p.read)
    + (AttrTokens(Write, p.write) + (AttrTokens(Alias, p.alias) + AttrTokens(Notify, p.notify)))
  }

  /** Methods as far as names and targets go; `Builtin` are those every model gets. */
  datatype Method =
    | RoleGetter(name: string, field: string, roleType: TypePath, variant: string, optional: bool)
    | ReadWrapper(name: string, ty: seq<Token>, target: string)
    | WriteWrapper(name: string, ty: seq<Token>, target: string)
    | Builtin(name: string)

  function MethodNames(methods: seq<Method>): (r: seq<string>)
    ensures |r| == |methods|
    ensures forall i :: 0 <= i < |r| ==> r[i] == methods[i].name
  {
    if methods == [] then [] else [methods[0].name] + MethodNames(methods[1..])
  }

  /** How a method is used by a property, if at all; `set_app` is there to write the base property. */
  function Access(m: Method): seq<(Key, string)> {
    match m
    case RoleGetter(name, _, _, _, _) => [(Read, name)]
    case ReadWrapper(name, _, _) => [(Read, name)]
    case WriteWrapper(name, _, _) => [(Write, name)]
    case Builtin(name) => if name == "set_app" then [(Write, name)] else []
  }

  function Accesses(methods: seq<Method>): seq<(Key, string)> {
    if methods == [] then [] else Access(methods[0]) + Accesses(methods[1..])
  }

  lemma {:induction false} AccessesConcat(a: seq<Method>, b: seq<Method>)
    ensures Accesses(a + b) == Accesses(a) + Accesses(b)
  {
    if a == [] {
      assert a + b == b;
    } else {
      assert (a + b)[1..] == a[1..] + b;
      AccessesConcat(a[1..], b);
    }
  }

  /** QtProperty::methods */
  function WrapperMethods(p: QtProperty, ty: seq<Token>): seq<Method> {
    (if p.read.None? then [] else [ReadWrapper(Wrapped(p.read.value), ty, p.read.value)])
    + (if p.write.None? then [] else [WriteWrapper(Wrapped(p.write.value), ty, p.write.value)])
  }

  /** `qt_property!(ty; attrs)` */
  function PropertyType(ty: seq<Token>, attrs: seq<Token>): seq<Token> {
    [Ident("qt_property"), Punct('!'), Group(Paren, ty + [SEMICOLON] + attrs)]
  }

  // ---------- Reading a property type back ----------

  function AfterSemicolon(ts: seq<Token>): seq<Token> {
    if ts == [] then []
    else if SEMICOLON in ts[1..] then AfterSemicolon(ts[1..])
    else if ts[0] == SEMICOLON then ts[1..] else []
  }

  /** The methods that a list of property attributes calls by name, and whether to read or to write. */
  function Called(attrs: seq<Token>): seq<(Key, string)> {
    if |attrs| < 2 || !attrs[0].Ident? || !attrs[1].Ident? then []
    else
      (if attrs[0].name == "READ" then [(Read, attrs[1].name)]
       else if attrs[0].name == "WRITE" then [(Write, attrs[1].name)] else [])
      + Called(attrs[2..])
  }

  /** The READ and WRITE methods that a field's type refers to, if it is a property. */
  function References(ty: seq<Token>): seq<(Key, string)> {
    if ty == [] || !ty[|ty| - 1].Group? then [] else Called(AfterSemicolon(ty[|ty| - 1].inner))
  }

  lemma {:induction false} AfterSemicolonIs(ty: seq<Token>, attrs: seq<Token>)
    requires SEMICOLON !in attrs
    ensures AfterSemicolon(ty + [SEMICOLON] + attrs) == attrs
  {
    var ts := ty + [SEMICOLON] + attrs;
    if ty == [] {
      assert ts[1..] == attrs;
    } else {
      assert ts[1..] == ty[1..] + [SEMICOLON] + attrs;
      assert ts[1..][|ty| - 1] == SEMICOLON;
      AfterSemicolonIs(ty[1..], attrs);
    }
  }

  lemma {:induction false} PropertyReferences(before: seq<Token>, ty: seq<Token>, attrs: seq<Token>)
    requires SEMICOLON !in attrs
    ensures References(before + PropertyType(ty, attrs)) == Called(attrs)
  {
    var all := before + PropertyType(ty, attrs);
    assert all[|all| - 1] == Group(Paren, ty + [SEMICOLON] + attrs);
    AfterSemicolonIs(ty, attrs);
  }

  lemma {:induction false} CalledStep(k: Key, name: Option<string>, rest: seq<Token>)
    ensures Called(AttrTokens(k, name) + rest) ==
      (if name.None? || k.Alias? || k.Notify? then [] else [(k, Wrapped(name.value))]) + Called(rest)
  {
    var attrs := AttrTokens(k, name);
    if name.None? {
      assert attrs + rest == rest;
    } else {
      assert (attrs + rest)[2..] == rest;
    }
  }

  lemma {:induction false} AttrsPlain(p: QtProperty)
    ensures SEMICOLON !in Attrs(p)
  {
    assert SEMICOLON !in AttrTokens(Alias, p.alias) + AttrTokens(Notify, p.notify);
  }

  lemma {:induction false} AttrsCall(p: QtProperty)
    ensures Called(Attrs(p)) ==
      (if p.read.None? then [] else [(Read, Wrapped(p.read.value))])
      + (if p.write.None? then [] else [(Write, Wrapped(p.write.value))])
  {
    var w, a, n := AttrTokens(Write, p.write), AttrTokens(Alias, p.alias), AttrTokens(Notify, p.notify);
    CalledStep(Read, p.read, w + (a + n));
    CalledStep(Write, p.write, a + n);
    CalledStep(Alias, p.alias, n);
    CalledStep(Notify, p.notify, []);
    assert n + [] == n;
  }

  /**
   The attributes of a property call exactly its wrappers, in order: to read, one that calls the READ
   method for a value of the property's type, and to write, one that calls the WRITE method with one.
   */
  lemma {:induction false} WrappersAgree(p: QtProperty, ty: seq<Token>)
    ensures References(PropertyType(ty, Attrs(p))) == Accesses(WrapperMethods(p, ty))
    ensures WrapsBoth(References(PropertyType(ty, Attrs(p))), p, ty)
  {
    AttrsPlain(p);
    AttrsCall(p);
    assert [] + PropertyType(ty, Attrs(p)) == PropertyType(ty, Attrs(p));
    PropertyReferences([], ty, Attrs(p));
    WrapperAccesses(p, ty);
    AccessesWrapBoth(p, ty);
  }

  /** What is called to read and to write are a reader of the READ method and a writer of the WRITE method. */
  ghost predicate WrapsBoth(called: seq<(Key, string)>, p: QtProperty, ty: seq<Token>) {
    var methods := WrapperMethods(p, ty);
    && (forall n :: (Read, n) in called <==>
          p.read.Some? && n == Wrapped(p.read.value) && ReadWrapper(n, ty, p.read.value) in methods)
    && (forall n :: (Write, n) in called <==>
          p.write.Some? && n == Wrapped(p.write.value) && WriteWrapper(n, ty, p.write.value) in methods)
  }

  lemma {:induction false} AccessesWrapBoth(p: QtProperty, ty: seq<Token>)
    ensures WrapsBoth(Accesses(WrapperMethods(p, ty)), p, ty)
  {
    WrapperAccesses(p, ty);
  }

  lemma {:induction false} WrapperAccesses(p: QtProperty, ty: seq<Token>)
    ensures Accesses(WrapperMethods(p, ty)) ==
      (if p.read.None? then [] else [(Read, Wrapped(p.read.value))])
      + (if p.write.None? then [] else [(Write, Wrapped(p.write.value))])
  {
    var r: seq<Method> := if p.read.None? then [] else [ReadWrapper(Wrapped(p.read.value), ty, p.read.value)];
    var w: seq<Method> := if p.write.None? then [] else [WriteWrapper(Wrapped(p.write.value), ty, p.write.value)];
    AccessesConcat(r, w);
    assert r != [] ==> r[1..] == [];
    assert w != [] ==> w[1..] == [];
  }

  lemma {:induction false} WrapperMethodNames(p: QtProperty, ty: seq<Token>)
    ensures MethodNames(WrapperMethods(p, ty)) ==
      (if p.read.None? then [] else [Wrapped(p.read.value)]) + (if p.write.None? then [] else [Wrapped(p.write.value)])
  {
  }
}
