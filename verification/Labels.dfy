/** Texts cut at a separator, and put together again. */
module Labels {
  import opened Text

  /** An element in front of the parts: a new part at a separator, else the start of the first one. */
  function Grow<T(==)>(c: T, parts: seq<seq<T>>, separator: T): seq<seq<T>>
    requires parts != []
  {
    if c == separator then [[]] + parts else [[c] + parts[0]] + parts[1..]
  }

  /** `split(separator)` */
  function Split<T(==)>(s: seq<T>, separator: T): (r: seq<seq<T>>)
    ensures r != []
  {
    if s == [] then [[]] else Grow(s[0], Split(s[1..], separator), separator)
  }

  lemma GrowConcat<T>(c: T, first: seq<seq<T>>, last: seq<seq<T>>, separator: T)
    requires first != []
    ensures Grow(c, first + last, separator) == Grow(c, first, separator) + last
  {
    assert (first + last)[1..] == first[1..] + last;
  }

  lemma SplitCons<T>(c: T, s: seq<T>, separator: T)
    ensures Split([c] + s, separator) == Grow(c, Split(s, separator), separator)
  {
    assert ([c] + s)[1..] == s;
  }

  lemma {:induction false} SplitConcat<T>(a: seq<T>, b: seq<T>, separator: T)
    ensures Split(a + [separator] + b, separator) == Split(a, separator) + Split(b, separator)
    decreases |a|
  {
    if a == [] {
      assert a + [separator] + b == [separator] + b;
      SplitCons(separator, b, separator);
    } else {
      hide Split, Grow;
      SplitConcat(a[1..], b, separator);
      SplitCons(a[0], a[1..], separator);
      SplitCons(a[0], a[1..] + [separator] + b, separator);
      GrowConcat(a[0], Split(a[1..], separator), Split(b, separator), separator);
      assert [a[0]] + a[1..] == a && [a[0]] + (a[1..] + [separator] + b) == a + [separator] + b;
    }
  }

  lemma {:induction false} SplitOne<T>(s: seq<T>, separator: T)
    requires separator !in s
    ensures Split(s, separator) == [s]
  {
    if s == [] {
    } else {
      SplitOne(s[1..], separator);
      assert [s[0]] + s[1..] == s;
    }
  }

  /** No part holds a separator. */
  lemma {:induction false} SplitParts<T>(s: seq<T>, separator: T)
    ensures forall i | 0 <= i < |Split(s, separator)| :: separator !in Split(s, separator)[i]
  {
    if s == [] {
    } else {
      SplitParts(s[1..], separator);
    }
  }

  lemma {:induction false} SplitJoined<T>(parts: seq<seq<T>>, separator: T)
    requires parts != [] && forall i | 0 <= i < |parts| :: separator !in parts[i]
    ensures Split(Join(parts, [separator]), separator) == parts
    decreases |parts|
  {
    SplitOne(parts[0], separator);
    if |parts| == 1 {
    } else {
      SplitJoined(parts[1..], separator);
      SplitConcat(parts[0], Join(parts[1..], [separator]), separator);
      assert [parts[0]] + parts[1..] == parts;
    }
  }

  lemma JoinGrow<T>(c: T, parts: seq<seq<T>>, separator: T)
    requires parts != []
    ensures Join(Grow(c, parts, separator), [separator]) == [c] + Join(parts, [separator])
  {
    var grown := Grow(c, parts, separator);
    if c == separator {
      assert grown[1..] == parts;
    } else {
      assert grown[1..] == parts[1..];
    }
  }

  /** A text is its parts, joined. */
  lemma {:induction false} JoinSplit<T>(s: seq<T>, separator: T)
    ensures Join(Split(s, separator), [separator]) == s
  {
    if s == [] {
    } else {
      JoinSplit(s[1..], separator);
      JoinGrow(s[0], Split(s[1..], separator), separator);
      assert [s[0]] + s[1..] == s;
    }
  }

  lemma {:induction false} JoinConcat<T>(a: seq<seq<T>>, b: seq<seq<T>>, separator: T)
    requires a != [] && b != []
    ensures Join(a + b, [separator]) == Join(a, [separator]) + [separator] + Join(b, [separator])
    decreases |a|
  {
    assert (a + b)[1..] == a[1..] + b;
    if |a| == 1 {
      assert a[1..] + b == b;
    } else {
      JoinConcat(a[1..], b, separator);
    }
  }

  /** A text ends in another one, behind a separator or as a whole, exactly if its parts end in the other's parts. */
  lemma EndsByParts<T>(s: seq<T>, end: seq<T>, separator: T)
    ensures s == end || IsSuffix([separator] + end, s) <==> IsSuffix(Split(end, separator), Split(s, separator))
  {
    hide Split, Join;
    JoinSplit(s, separator);
    JoinSplit(end, separator);
    if s == end {
      assert Split(s, separator)[0..] == Split(end, separator);
    } else if IsSuffix([separator] + end, s) {
      var front := s[..|s| - |end| - 1];
      assert s == front + [separator] + end;
      SplitConcat(front, end, separator);
    }
    if IsSuffix(Split(end, separator), Split(s, separator)) {
      PartsEnd(Split(s, separator), Split(end, separator), separator);
    }
  }

  lemma PartsEnd<T>(parts: seq<seq<T>>, end: seq<seq<T>>, separator: T)
    requires end != [] && IsSuffix(end, parts)
    ensures Join(parts, [separator]) == Join(end, [separator])
      || IsSuffix([separator] + Join(end, [separator]), Join(parts, [separator]))
  {
    var front := parts[..|parts| - |end|];
    assert parts == front + end;
    if front == [] {
      assert parts == end;
    } else {
      JoinConcat(front, end, separator);
      hide Join;
      SuffixConcat(Join(front, [separator]), separator, Join(end, [separator]));
    }
  }

  lemma SuffixConcat<T>(a: seq<T>, c: T, b: seq<T>)
    ensures IsSuffix([c] + b, a + [c] + b)
  {
    assert a + [c] + b == a + ([c] + b);
  }
}
