/** The string operations the services share. */
module Text {

  /** The Unicode White_Space property, which Rust's `trim` removes. */
  predicate IsWhitespace(c: char) {
    || '\t' <= c <= '\r' || c == ' ' || c == '\U{0085}' || c == '\U{00A0}' || c == '\U{1680}'
    || '\U{2000}' <= c <= '\U{200A}' || c == '\U{2028}' || c == '\U{2029}' || c == '\U{202F}'
    || c == '\U{205F}' || c == '\U{3000}'
  }

  /** The code points with that property. */
  const WHITE_SPACE := {9, 10, 11, 12, 13, 32, 133, 160, 5760, 8192, 8193, 8194, 8195, 8196, 8197, 8198, 8199, 8200,
                        8201, 8202, 8232, 8233, 8239, 8287, 12288}

  lemma WhitespaceIff(c: char)
    ensures IsWhitespace(c) <==> c as int in WHITE_SPACE
    ensures IsPythonSpace(c) <==> c as int in WHITE_SPACE + {28, 29, 30, 31}
  {
  }

  function TrimStart(s: string): string {
    if s != "" && IsWhitespace(s[0]) then TrimStart(s[1..]) else s
  }

  function TrimEnd(s: string): string {
    if s != "" && IsWhitespace(s[|s| - 1]) then TrimEnd(s[..|s| - 1]) else s
  }

  function Trim(s: string): string {
    TrimEnd(TrimStart(s))
  }

  /** Neither end is whitespace. */
  predicate IsTrimmed(s: string) {
    s != "" ==> !IsWhitespace(s[0]) && !IsWhitespace(s[|s| - 1])
  }

  lemma {:induction false} TrimEndKeepsStart(s: string)
    ensures TrimEnd(s) == "" || TrimEnd(s)[0] == s[0]
    ensures TrimEnd(s) != "" ==> !IsWhitespace(TrimEnd(s)[|TrimEnd(s)| - 1])
  {
    if s != "" && IsWhitespace(s[|s| - 1]) {
      TrimEndKeepsStart(s[..|s| - 1]);
    }
  }

  lemma {:induction false} TrimStartStarts(s: string)
    ensures TrimStart(s) != "" ==> !IsWhitespace(TrimStart(s)[0])
  {
    if s != "" && IsWhitespace(s[0]) {
      TrimStartStarts(s[1..]);
    }
  }

  lemma TrimIsTrimmed(s: string)
    ensures IsTrimmed(Trim(s))
  {
    TrimStartStarts(s);
    TrimEndKeepsStart(TrimStart(s));
  }

  lemma TrimmedIsFixed(s: string)
    requires IsTrimmed(s)
    ensures Trim(s) == s
  {
  }

  predicate IsBlank(s: string) {
    forall c :: c in s ==> IsWhitespace(c)
  }

  lemma {:induction false} TrimStartCuts(a: string, s: string)
    requires IsBlank(a)
    ensures TrimStart(a + s) == TrimStart(s)
  {
    if a != "" {
      assert (a + s)[0] == a[0] && (a + s)[1..] == a[1..] + s;
      TrimStartCuts(a[1..], s);
    } else {
      assert a + s == s;
    }
  }

  lemma {:induction false} TrimEndCuts(s: string, b: string)
    requires IsBlank(b)
    ensures TrimEnd(s + b) == TrimEnd(s)
  {
    if b != "" {
      var n := |b| - 1;
      assert (s + b)[|s + b| - 1] == b[n] && (s + b)[..|s + b| - 1] == s + b[..n];
      TrimEndCuts(s, b[..n]);
    } else {
      assert s + b == s;
    }
  }

  lemma {:induction false} TrimStartLeaves(s: string) returns (a: string)
    ensures IsBlank(a) && s == a + TrimStart(s)
  {
    if s != "" && IsWhitespace(s[0]) {
      a := TrimStartLeaves(s[1..]);
      a := [s[0]] + a;
    } else {
      a := "";
    }
  }

  lemma {:induction false} TrimEndLeaves(s: string) returns (b: string)
    ensures IsBlank(b) && s == TrimEnd(s) + b
  {
    if s != "" && IsWhitespace(s[|s| - 1]) {
      b := TrimEndLeaves(s[..|s| - 1]);
      b := b + [s[|s| - 1]];
    } else {
      b := "";
    }
  }

  ghost predicate IsPadded(s: string, t: string) {
    exists a, b :: IsBlank(a) && IsBlank(b) && s == a + t + b
  }

  /** Trimming takes the whitespace around a text away, all of it and nothing else. */
  lemma TrimmedIff(s: string, t: string)
    ensures Trim(s) == t <==> IsTrimmed(t) && IsPadded(s, t)
  {
    hide IsWhitespace;
    TrimIsTrimmed(s);
    var a := TrimStartLeaves(s);
    var b := TrimEndLeaves(TrimStart(s));
    assert s == a + Trim(s) + b;
    if IsTrimmed(t) && IsPadded(s, t) {
      var c, d :| IsBlank(c) && IsBlank(d) && s == c + t + d;
      PaddingGoes(c, t, d);
    }
  }

  lemma PaddingGoes(a: string, t: string, b: string)
    requires IsBlank(a) && IsBlank(b) && IsTrimmed(t)
    ensures Trim(a + t + b) == t
  {
    hide IsWhitespace;
    assert a + t + b == a + (t + b);
    TrimStartCuts(a, t + b);
    if t == "" {
      TrimStartCuts(b, "");
      assert t + b == b == b + "";
    } else {
      assert (t + b)[0] == t[0];
      TrimEndCuts(t, b);
    }
  }

  /** Nothing is left exactly of a text that is all whitespace. */
  lemma BlankIff(s: string)
    ensures Trim(s) == "" <==> IsBlank(s)
  {
    hide IsWhitespace;
    TrimmedIff(s, "");
    if IsBlank(s) {
      assert IsBlank("") && s == s + "" + "";
    }
    if IsPadded(s, "") {
      var a, b :| IsBlank(a) && IsBlank(b) && s == a + "" + b;
      assert s == a + b;
    }
  }

  /** Python's `str.isspace`, which `str.strip` removes: Rust's set and four separators more. */
  predicate IsPythonSpace(c: char) {
    IsWhitespace(c) || '\U{001C}' <= c <= '\U{001F}'
  }

  function StripStart(s: string): string {
    if s != "" && IsPythonSpace(s[0]) then StripStart(s[1..]) else s
  }

  function StripEnd(s: string): string {
    if s != "" && IsPythonSpace(s[|s| - 1]) then StripEnd(s[..|s| - 1]) else s
  }

  function Strip(s: string): string {
    StripEnd(StripStart(s))
  }

  lemma {:induction false} StripEndKeepsStart(s: string)
    ensures StripEnd(s) == "" || StripEnd(s)[0] == s[0]
    ensures StripEnd(s) != "" ==> !IsPythonSpace(StripEnd(s)[|StripEnd(s)| - 1])
  {
    if s != "" && IsPythonSpace(s[|s| - 1]) {
      StripEndKeepsStart(s[..|s| - 1]);
    }
  }

  lemma {:induction false} StripStartStarts(s: string)
    ensures StripStart(s) != "" ==> !IsPythonSpace(StripStart(s)[0])
  {
    if s != "" && IsPythonSpace(s[0]) {
      StripStartStarts(s[1..]);
    }
  }

  /** What Python strips, Rust leaves alone. */
  lemma StrippedIsTrimmed(s: string)
    ensures Trim(Strip(s)) == Strip(s)
  {
    StripStartStarts(s);
    StripEndKeepsStart(StripStart(s));
    TrimmedIsFixed(Strip(s));
  }

  predicate IsPythonBlank(s: string) {
    forall c :: c in s ==> IsPythonSpace(c)
  }

  /** Neither end is space. */
  predicate IsStripped(s: string) {
    s != "" ==> !IsPythonSpace(s[0]) && !IsPythonSpace(s[|s| - 1])
  }

  lemma {:induction false} StripStartCuts(a: string, s: string)
    requires IsPythonBlank(a)
    ensures StripStart(a + s) == StripStart(s)
  {
    if a != "" {
      assert (a + s)[0] == a[0] && (a + s)[1..] == a[1..] + s;
      StripStartCuts(a[1..], s);
    } else {
      assert a + s == s;
    }
  }

  lemma {:induction false} StripEndCuts(s: string, b: string)
    requires IsPythonBlank(b)
    ensures StripEnd(s + b) == StripEnd(s)
  {
    if b != "" {
      var n := |b| - 1;
      assert (s + b)[|s + b| - 1] == b[n] && (s + b)[..|s + b| - 1] == s + b[..n];
      StripEndCuts(s, b[..n]);
    } else {
      assert s + b == s;
    }
  }

  lemma {:induction false} StripStartLeaves(s: string) returns (a: string)
    ensures IsPythonBlank(a) && s == a + StripStart(s)
  {
    if s != "" && IsPythonSpace(s[0]) {
      a := StripStartLeaves(s[1..]);
      a := [s[0]] + a;
    } else {
      a := "";
    }
  }

  lemma {:induction false} StripEndLeaves(s: string) returns (b: string)
    ensures IsPythonBlank(b) && s == StripEnd(s) + b
  {
    if s != "" && IsPythonSpace(s[|s| - 1]) {
      b := StripEndLeaves(s[..|s| - 1]);
      b := b + [s[|s| - 1]];
    } else {
      b := "";
    }
  }

  ghost predicate IsSpaced(s: string, t: string) {
    exists a, b :: IsPythonBlank(a) && IsPythonBlank(b) && s == a + t + b
  }

  /** Stripping takes the space around a text away, all of it and nothing else. */
  lemma StrippedIff(s: string, t: string)
    ensures Strip(s) == t <==> IsStripped(t) && IsSpaced(s, t)
  {
    hide IsPythonSpace;
    StripStartStarts(s);
    StripEndKeepsStart(StripStart(s));
    var a := StripStartLeaves(s);
    var b := StripEndLeaves(StripStart(s));
    assert s == a + Strip(s) + b;
    if IsStripped(t) && IsSpaced(s, t) {
      var c, d :| IsPythonBlank(c) && IsPythonBlank(d) && s == c + t + d;
      SpaceGoes(c, t, d);
    }
  }

  lemma SpaceGoes(a: string, t: string, b: string)
    requires IsPythonBlank(a) && IsPythonBlank(b) && IsStripped(t)
    ensures Strip(a + t + b) == t
  {
    hide IsPythonSpace;
    assert a + t + b == a + (t + b);
    StripStartCuts(a, t + b);
    if t == "" {
      StripStartCuts(b, "");
      assert t + b == b == b + "";
    } else {
      assert (t + b)[0] == t[0];
      StripEndCuts(t, b);
    }
  }

  /** Nothing is left exactly of a text that is all space. */
  lemma PythonBlankIff(s: string)
    ensures Strip(s) == "" <==> IsPythonBlank(s)
  {
    hide IsPythonSpace;
    StrippedIff(s, "");
    if IsPythonBlank(s) {
      assert IsPythonBlank("") && s == s + "" + "";
    }
    if IsSpaced(s, "") {
      var a, b :| IsPythonBlank(a) && IsPythonBlank(b) && s == a + "" + b;
      assert s == a + b;
    }
  }
}
