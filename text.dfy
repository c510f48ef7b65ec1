/** Python's str.strip() and str.split(sep) on strings, with the properties the
    assignment extractor relies on. */
module Text {

  /** The characters Python's str.isspace() accepts, and so the set str.strip()
      with no argument removes: U+0009..U+000D, U+001C..U+0020, U+0085, U+00A0,
      U+1680, U+2000..U+200A, U+2028, U+2029, U+202F, U+205F and U+3000. */
  const Whitespace: set<char> := {
    '\t', '\n', '\U{B}', '\U{C}', '\r', '\U{1C}', '\U{1D}', '\U{1E}', '\U{1F}', ' ',
    '\U{85}', '\U{A0}', '\U{1680}', '\U{2000}', '\U{2001}', '\U{2002}', '\U{2003}',
    '\U{2004}', '\U{2005}', '\U{2006}', '\U{2007}', '\U{2008}', '\U{2009}', '\U{200A}',
    '\U{2028}', '\U{2029}', '\U{202F}', '\U{205F}', '\U{3000}'
  }

  predicate IsWs(c: char) {
    c in Whitespace
  }

  predicate AllWs(s: string) {
    forall k :: 0 <= k < |s| ==> IsWs(s[k])
  }

  /** Neither the first nor the last character is whitespace. */
  predicate Trimmed(s: string) {
    s == [] || (!IsWs(s[0]) && !IsWs(s[|s| - 1]))
  }

  /** str.lstrip(): the suffix left after dropping the leading whitespace. */
  function StripLeft(s: string): (r: string)
    ensures |r| <= |s| && r == s[|s| - |r|..]
    ensures AllWs(s[..|s| - |r|])
    ensures r == [] || !IsWs(r[0])
    decreases |s|
  {
    if |s| > 0 && IsWs(s[0]) then StripLeft(s[1..]) else s
  }

  /** str.rstrip(): the prefix left after dropping the trailing whitespace. */
  function StripRight(s: string): (r: string)
    ensures |r| <= |s| && r == s[..|r|]
    ensures AllWs(s[|r|..])
    ensures r == [] || !IsWs(r[|r| - 1])
    decreases |s|
  {
    if |s| > 0 && IsWs(s[|s| - 1]) then
      var r := StripRight(s[..|s| - 1]);
      assert s[|r|..] == s[..|s| - 1][|r|..] + [s[|s| - 1]];
      r
    else
      s
  }

  /** str.strip(): whitespace removed from both ends. */
  function Strip(s: string): (r: string)
    ensures Trimmed(r)
  {
    var l := StripLeft(s);
    var r := StripRight(l);
    assert r != [] ==> r[0] == l[0];
    r
  }

  lemma AllWsConcat(a: string, b: string)
    requires AllWs(a) && AllWs(b)
    ensures AllWs(a + b)
  {
    forall k | 0 <= k < |a + b| ensures IsWs((a + b)[k]) {
      if k < |a| { assert (a + b)[k] == a[k]; } else { assert (a + b)[k] == b[k - |a|]; }
    }
  }

  lemma StripEmptyAllWs(s: string)
    requires Strip(s) == []
    ensures AllWs(s)
  {
    var l := StripLeft(s);
    var i := |s| - |l|;
    assert AllWs(l) by {
      assert AllWs(l[0..]);
      assert l[0..] == l;
    }
    assert s == s[..i] + l by {
      assert l == s[i..];
    }
    AllWsConcat(s[..i], l);
  }

  /** Stripping leaves nothing exactly when the string is all whitespace. */
  lemma StripEmptyIff(s: string)
    ensures Strip(s) == [] <==> AllWs(s)
  {
    if AllWs(s) {
      assert StripLeft(s) == [] by {
        StripLeftPadded(s, []);
        assert s + [] == s;
      }
    }
    if Strip(s) == [] {
      StripEmptyAllWs(s);
    }
  }

  lemma ThreeSlices(s: string, i: nat, j: nat)
    requires i <= j <= |s|
    ensures s == s[..i] + s[i..j] + s[j..]
  {
  }

  /** The input is the whitespace stripped in front, the result, and the
      whitespace stripped behind; i is where the result starts. */
  lemma StripDecomposes(s: string) returns (i: nat)
    ensures i + |Strip(s)| <= |s|
    ensures s == s[..i] + Strip(s) + s[i + |Strip(s)|..]
    ensures AllWs(s[..i]) && AllWs(s[i + |Strip(s)|..])
  {
    var l := StripLeft(s);
    var r := StripRight(l);
    i := |s| - |l|;
    var j := i + |r|;
    assert r == s[i..j];
    assert l[|r|..] == s[j..];
    ThreeSlices(s, i, j);
  }

  lemma {:induction false} StripLeftPadded(w: string, u: string)
    requires AllWs(w)
    requires u == [] || !IsWs(u[0])
    ensures StripLeft(w + u) == u
    decreases |w|
  {
    if w == [] {
      assert w + u == u;
    } else {
      assert (w + u)[1..] == w[1..] + u;
      assert AllWs(w[1..]) by {
        forall k | 0 <= k < |w[1..]| ensures IsWs(w[1..][k]) { assert w[1..][k] == w[k + 1]; }
      }
      StripLeftPadded(w[1..], u);
    }
  }

  lemma {:induction false} StripRightPadded(u: string, w: string)
    requires AllWs(w)
    requires u == [] || !IsWs(u[|u| - 1])
    ensures StripRight(u + w) == u
    decreases |w|
  {
    if w == [] {
      assert u + w == u;
    } else {
      var w' := w[..|w| - 1];
      assert (u + w)[..|u + w| - 1] == u + w';
      assert AllWs(w') by {
        forall k | 0 <= k < |w'| ensures IsWs(w'[k]) { assert w'[k] == w[k]; }
      }
      StripRightPadded(u, w');
    }
  }

  /** Strip is fully determined by its two properties: whatever whitespace
      surrounds a trimmed string, stripping gives back that string. */
  lemma StripUnique(w1: string, t: string, w2: string)
    requires AllWs(w1) && AllWs(w2) && Trimmed(t)
    ensures Strip(w1 + t + w2) == t
  {
    if t == [] {
      assert w1 + t + w2 == w1 + w2;
      AllWsConcat(w1, w2);
      StripEmptyIff(w1 + w2);
    } else {
      assert w1 + t + w2 == w1 + (t + w2);
      StripLeftPadded(w1, t + w2);
      StripRightPadded(t, w2);
    }
  }

  /** Stripping twice is stripping once. */
  lemma StripIdempotent(s: string)
    ensures Strip(Strip(s)) == Strip(s)
  {
    var t := Strip(s);
    assert AllWs([]);
    StripUnique([], t, []);
    assert [] + t + [] == t;
  }

  lemma Regroup(w1: string, a: string, t: string, b: string, w2: string)
    ensures w1 + (a + t + b) + w2 == (w1 + a) + t + (b + w2)
  {
  }

  /** Surrounding whitespace never changes the stripped result. */
  lemma StripIgnoresPadding(w1: string, s: string, w2: string)
    requires AllWs(w1) && AllWs(w2)
    ensures Strip(w1 + s + w2) == Strip(s)
  {
    var i := StripDecomposes(s);
    var t := Strip(s);
    var a, b := s[..i], s[i + |t|..];
    Regroup(w1, a, t, b, w2);
    AllWsConcat(w1, a);
    AllWsConcat(b, w2);
    StripUnique(w1 + a, t, b + w2);
  }

  /** sep.join(parts): the parts with one separator between neighbours. */
  function Join(parts: seq<string>, sep: char): string
    decreases |parts|
  {
    if parts == [] then ""
    else if |parts| == 1 then parts[0]
    else parts[0] + [sep] + Join(parts[1..], sep)
  }

  /** The number of occurrences of c in s. */
  function Count(s: string, c: char): nat
    decreases |s|
  {
    if s == [] then 0 else (if s[0] == c then 1 else 0) + Count(s[1..], c)
  }

  lemma JoinCons(p: string, rest: seq<string>, sep: char)
    requires |rest| >= 1
    ensures Join([p] + rest, sep) == p + [sep] + Join(rest, sep)
  {
    assert ([p] + rest)[1..] == rest;
  }

  lemma JoinExtendHead(c: char, rest: seq<string>, sep: char)
    requires |rest| >= 1
    ensures Join([[c] + rest[0]] + rest[1..], sep) == [c] + Join(rest, sep)
  {
    if |rest| > 1 {
      JoinCons([c] + rest[0], rest[1..], sep);
      JoinCons(rest[0], rest[1..], sep);
      assert rest == [rest[0]] + rest[1..];
    }
  }

  /** s.split(sep) for a one-character separator: the pieces between separators,
      empty ones included; "" splits into [""]. There is one piece more than
      there are separators, and no piece holds a separator. */
  function Split(s: string, sep: char): (r: seq<string>)
    ensures |r| == Count(s, sep) + 1
    ensures forall k :: 0 <= k < |r| ==> sep !in r[k]
    decreases |s|
  {
    if s == [] then [""]
    else
      var rest := Split(s[1..], sep);
      assert s == [s[0]] + s[1..];
      if s[0] == sep then
        [""] + rest
      else
        var r := [[s[0]] + rest[0]] + rest[1..];
        assert forall k :: 1 <= k < |r| ==> r[k] == rest[k];
        r
  }

  /** Joining the pieces with the separator gives back the string. */
  lemma {:induction false} JoinSplit(s: string, sep: char)
    ensures Join(Split(s, sep), sep) == s
    decreases |s|
  {
    if s != [] {
      JoinSplit(s[1..], sep);
      var rest := Split(s[1..], sep);
      if s[0] == sep {
        JoinCons("", rest, sep);
      } else {
        JoinExtendHead(s[0], rest, sep);
      }
      assert s == [s[0]] + s[1..];
    }
  }

  lemma SplitCons(c: char, t: string, sep: char)
    requires c != sep
    ensures Split([c] + t, sep) == [[c] + Split(t, sep)[0]] + Split(t, sep)[1..]
  {
    assert ([c] + t)[1..] == t;
  }

  lemma {:induction false} SplitAfterPiece(p: string, x: string, sep: char)
    requires sep !in p
    ensures Split(p + x, sep) == [p + Split(x, sep)[0]] + Split(x, sep)[1..]
    decreases |p|
  {
    var sx := Split(x, sep);
    if p == [] {
      assert p + x == x;
      assert p + sx[0] == sx[0];
      assert sx == [sx[0]] + sx[1..];
    } else {
      var q := p[1..];
      assert sep !in q by { assert forall k :: 0 <= k < |q| ==> q[k] == p[k + 1]; }
      SplitAfterPiece(q, x, sep);
      SplitCons(p[0], q + x, sep);
      calc {
        Split(p + x, sep);
        { assert p + x == [p[0]] + (q + x); }
        Split([p[0]] + (q + x), sep);
        [[p[0]] + (q + sx[0])] + sx[1..];
        { assert [p[0]] + (q + sx[0]) == p + sx[0]; }
        [p + sx[0]] + sx[1..];
      }
    }
  }

  lemma SplitAtSep(tail: string, sep: char)
    ensures Split([sep] + tail, sep) == [""] + Split(tail, sep)
  {
    assert ([sep] + tail)[1..] == tail;
  }

  /** Split inverts Join: joining pieces free of the separator and splitting
      again gives back exactly those pieces. */
  lemma {:induction false} SplitJoin(parts: seq<string>, sep: char)
    requires |parts| >= 1
    requires forall k :: 0 <= k < |parts| ==> sep !in parts[k]
    ensures Split(Join(parts, sep), sep) == parts
    decreases |parts|
  {
    var p := parts[0];
    if |parts| == 1 {
      SplitAfterPiece(p, "", sep);
      assert Split("", sep) == [""];
      assert p + "" == p;
      assert parts == [p];
    } else {
      var tail := Join(parts[1..], sep);
      JoinCons(p, parts[1..], sep);
      assert parts == [p] + parts[1..];
      assert Join(parts, sep) == p + ([sep] + tail);
      SplitAfterPiece(p, [sep] + tail, sep);
      SplitAtSep(tail, sep);
      SplitJoin(parts[1..], sep);
      calc {
        Split(Join(parts, sep), sep);
        [p + Split([sep] + tail, sep)[0]] + Split([sep] + tail, sep)[1..];
        { assert p + "" == p; }
        [p] + Split(tail, sep);
        parts;
      }
    }
  }
}
