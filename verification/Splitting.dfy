/**
 Joining sequences with a separator and splitting at one, for strings and token streams alike.
 */
module Splitting {

  function Join<T>(parts: seq<seq<T>>, sep: seq<T>): seq<T> {
    if |parts| == 0 then []
    else if |parts| == 1 then parts[0]
    else parts[0] + sep + Join(parts[1..], sep)
  }

  function Split<T(==)>(s: seq<T>, sep: T): (parts: seq<seq<T>>)
    ensures |parts| > 0
  {
    if s == [] then [[]]
    else
      var rest := Split(s[1..], sep);
      if s[0] == sep then [[]] + rest else [[s[0]] + rest[0]] + rest[1..]
  }

  lemma {:induction false} SplitPrefix<T>(part: seq<T>, rest: seq<T>, sep: T)
    requires sep !in part
    ensures Split(part + rest, sep) == [part + Split(rest, sep)[0]] + Split(rest, sep)[1..]
  {
    if part == [] {
      assert part + rest == rest;
      assert part + Split(rest, sep)[0] == Split(rest, sep)[0];
    } else {
      var whole, tail := part + rest, Split(rest, sep);
      SplitPrefix(part[1..], rest, sep);
      assert whole[1..] == part[1..] + rest && whole[0] == part[0];
      assert Split(whole, sep) == [[part[0]] + (part[1..] + tail[0])] + tail[1..];
      assert [part[0]] + (part[1..] + tail[0]) == part + tail[0];
    }
  }

  lemma {:induction false} SplitWhole<T>(part: seq<T>, sep: T)
    requires sep !in part
    ensures Split(part, sep) == [part]
  {
    SplitFirst(part, [], sep);
  }

  lemma {:induction false} SplitFirst<T>(part: seq<T>, rest: seq<T>, sep: T)
    requires sep !in part
    ensures Split(part, sep) == [part]
    ensures Split(part + [sep] + rest, sep) == [part] + Split(rest, sep)
  {
    SplitPrefix(part, [], sep);
    assert part + [] == part;
    SplitPrefix(part, [sep] + rest, sep);
    assert ([sep] + rest)[1..] == rest;
    assert Split([sep] + rest, sep) == [[]] + Split(rest, sep);
    assert part + [sep] + rest == part + ([sep] + rest);
  }

  /** One more element in front of the parts of a split. */
  function Push<T(==)>(x: T, parts: seq<seq<T>>, sep: T): seq<seq<T>>
    requires parts != []
  {
    if x == sep then [[]] + parts else [[x] + parts[0]] + parts[1..]
  }

  lemma {:induction false} SplitCons<T>(x: T, s: seq<T>, sep: T)
    ensures Split([x] + s, sep) == Push(x, Split(s, sep), sep)
  {
    assert ([x] + s)[1..] == s;
  }

  lemma {:induction false} PushConcat<T>(x: T, parts: seq<seq<T>>, more: seq<seq<T>>, sep: T)
    requires parts != []
    ensures Push(x, parts + more, sep) == Push(x, parts, sep) + more
  {
  }

  /** A separator anywhere divides the split, whatever stands around it. */
  lemma {:induction false} SplitConcat<T>(a: seq<T>, b: seq<T>, sep: T)
    ensures Split(a + [sep] + b, sep) == Split(a, sep) + Split(b, sep)
  {
    if a == [] {
      SplitCons(sep, b, sep);
      assert a + [sep] + b == [sep] + b;
    } else {
      SplitConcat(a[1..], b, sep);
      SplitCons(a[0], a[1..] + [sep] + b, sep);
      SplitCons(a[0], a[1..], sep);
      PushConcat(a[0], Split(a[1..], sep), Split(b, sep), sep);
      assert a == [a[0]] + a[1..];
      assert [a[0]] + (a[1..] + [sep] + b) == a + [sep] + b;
    }
  }

  /** Splitting at a separator that no part contains undoes joining with it. */
  lemma {:induction false} SplitJoin<T>(parts: seq<seq<T>>, sep: T)
    requires |parts| > 0
    requires forall i :: 0 <= i < |parts| ==> sep !in parts[i]
    ensures Split(Join(parts, [sep]), sep) == parts
  {
    if |parts| == 1 {
      SplitFirst(parts[0], [], sep);
    } else {
      SplitJoin(parts[1..], sep);
      SplitFirst(parts[0], Join(parts[1..], [sep]), sep);
    }
  }

  /** Joining undoes splitting, and no part contains the separator. */
  lemma {:induction false} JoinSplit<T>(s: seq<T>, sep: T)
    ensures Join(Split(s, sep), [sep]) == s
    ensures forall i :: 0 <= i < |Split(s, sep)| ==> sep !in Split(s, sep)[i]
  {
    if s != [] {
      var rest := Split(s[1..], sep);
      JoinSplit(s[1..], sep);
      if s[0] == sep {
        JoinCons([], rest, [sep]);
        assert [] + ([sep] + s[1..]) == s;
      } else {
        JoinGrow(s[0], rest[0], rest[1..], sep);
        assert [rest[0]] + rest[1..] == rest;
        assert [s[0]] + s[1..] == s;
      }
    }
  }

  lemma {:induction false} JoinCons<T>(first: seq<T>, tail: seq<seq<T>>, sep: seq<T>)
    requires tail != []
    ensures Join([first] + tail, sep) == first + (sep + Join(tail, sep))
  {
    assert ([first] + tail)[1..] == tail;
    assert first + sep + Join(tail, sep) == first + (sep + Join(tail, sep));
  }

  lemma {:induction false} JoinGrow<T>(x: T, first: seq<T>, tail: seq<seq<T>>, sep: T)
    ensures Join([[x] + first] + tail, [sep]) == [x] + Join([first] + tail, [sep])
  {
    if tail == [] {
      assert [[x] + first] + tail == [[x] + first] && [first] + tail == [first];
    } else {
      JoinCons([x] + first, tail, [sep]);
      JoinCons(first, tail, [sep]);
      var rest := [sep] + Join(tail, [sep]);
      assert [x] + first + rest == [x] + (first + rest);
    }
  }
}
