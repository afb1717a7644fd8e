/** How src/ghost_store.rs makes text fit on one line: escaping, and the trimming of white
    space when it is read.  Strings are sequences of Unicode scalar values. */
module LineText {

  // ---------- escaping ----------

  function Replace(s: string, c: char, repl: string): string {
    if s == [] then [] else (if s[0] == c then repl else [s[0]]) + Replace(s[1..], c, repl)
  }

  function Escape(s: string): string {
    Replace(Replace(Replace(s, '\\', "\\\\"), '\n', "\\n"), '=', "\\=")
  }

  function EscapedPair(c: char): string {
    if c == 'n' then "\n" else if c == '=' then "=" else if c == '\\' then "\\" else ['\\', c]
  }

  function Unescape(s: string): string {
    if s == [] then []
    else if s[0] != '\\' then [s[0]] + Unescape(s[1..])
    else if |s| == 1 then "\\"
    else EscapedPair(s[1]) + Unescape(s[2..])
  }

  method UnescapeLine(value: string) returns (out: string)
    ensures out == Unescape(value)
  {
    out := "";
    var i := 0;
    while i < |value|
      invariant 0 <= i <= |value|
      invariant out + Unescape(value[i..]) == Unescape(value)
    {
      UnescapeStep(out, value, i);
      var ch := value[i];
      i := i + 1;
      if ch == '\\' {
        if i == |value| {
          out := out + ['\\'];
        } else {
          var next := value[i];
          i := i + 1;
          if next == 'n' {
            out := out + ['\n'];
          } else if next == '=' {
            out := out + ['='];
          } else if next == '\\' {
            out := out + ['\\'];
          } else {
            out := out + ['\\', next];
          }
        }
      } else {
        out := out + [ch];
      }
    }
  }

  /** Reading one character, or a backslash and the character after it. */
  lemma UnescapeStep(out: string, value: string, i: nat)
    requires i < |value|
    ensures value[i] != '\\' ==>
      out + Unescape(value[i..]) == (out + [value[i]]) + Unescape(value[i + 1..])
    ensures value[i] == '\\' && i + 1 == |value| ==>
      out + Unescape(value[i..]) == (out + ['\\']) + Unescape(value[i + 1..])
    ensures value[i] == '\\' && i + 1 < |value| ==>
      out + Unescape(value[i..]) == (out + EscapedPair(value[i + 1])) + Unescape(value[i + 2..])
  {
    var rest := value[i..];
    assert rest[1..] == value[i + 1..];
    if i + 1 < |value| {
      assert rest[2..] == value[i + 2..];
    }
  }

  /** What the three replacements together do to one character. */
  function EscapeChar(c: char): string {
    if c == '\\' then "\\\\" else if c == '\n' then "\\n" else if c == '=' then "\\=" else [c]
  }

  lemma {:induction false} ReplaceConcat(s: string, t: string, c: char, repl: string)
    ensures Replace(s + t, c, repl) == Replace(s, c, repl) + Replace(t, c, repl)
  {
    if s == [] {
      assert s + t == t;
    } else {
      assert (s + t)[1..] == s[1..] + t;
      ReplaceConcat(s[1..], t, c, repl);
    }
  }

  lemma ReplaceOne(x: char, c: char, repl: string)
    ensures Replace([x], c, repl) == if x == c then repl else [x]
  {
  }

  lemma EscapeOne(c: char)
    ensures Escape([c]) == EscapeChar(c)
  {
    ReplaceOne(c, '\\', "\\\\");
    if c == '\\' {
      assert "\\\\" == ['\\'] + ['\\'];
      ReplaceConcat(['\\'], ['\\'], '\n', "\\n");
      ReplaceConcat(['\\'], ['\\'], '=', "\\=");
      ReplaceOne('\\', '\n', "\\n");
      ReplaceOne('\\', '=', "\\=");
    } else {
      ReplaceOne(c, '\n', "\\n");
      if c == '\n' {
        assert "\\n" == ['\\'] + ['n'];
        ReplaceConcat(['\\'], ['n'], '=', "\\=");
        ReplaceOne('\\', '=', "\\=");
        ReplaceOne('n', '=', "\\=");
      } else {
        ReplaceOne(c, '=', "\\=");
      }
    }
  }

  lemma EscapeConcat(s: string, t: string)
    ensures Escape(s + t) == Escape(s) + Escape(t)
  {
    ReplaceConcat(s, t, '\\', "\\\\");
    var s1, t1 := Replace(s, '\\', "\\\\"), Replace(t, '\\', "\\\\");
    ReplaceConcat(s1, t1, '\n', "\\n");
    ReplaceConcat(Replace(s1, '\n', "\\n"), Replace(t1, '\n', "\\n"), '=', "\\=");
  }

  lemma EscapeCons(s: string)
    requires s != []
    ensures Escape(s) == EscapeChar(s[0]) + Escape(s[1..])
  {
    assert s == [s[0]] + s[1..];
    EscapeConcat([s[0]], s[1..]);
    EscapeOne(s[0]);
  }

  lemma EscapeSnoc(s: string)
    requires s != []
    ensures Escape(s) == Escape(s[..|s| - 1]) + EscapeChar(s[|s| - 1])
  {
    assert s == s[..|s| - 1] + [s[|s| - 1]];
    EscapeConcat(s[..|s| - 1], [s[|s| - 1]]);
    EscapeOne(s[|s| - 1]);
  }

  /** `unescape_line` undoes `escape_line` for every string, and what it reads is one line. */
  lemma {:induction false} UnescapeEscape(s: string)
    ensures Unescape(Escape(s)) == s && '\n' !in Escape(s)
  {
    if s != [] {
      EscapeCons(s);
      UnescapeEscape(s[1..]);
      var e := EscapeChar(s[0]);
      assert Escape(s)[|e|..] == Escape(s[1..]);
    }
  }

  lemma {:induction false} UnescapeShortens(s: string)
    ensures |Unescape(s)| <= |s|
  {
    if s != [] {
      UnescapeShortens(s[1..]);
      if |s| > 1 { UnescapeShortens(s[2..]); }
    }
  }

  /** No backslash is followed by a character it would escape. */
  predicate NoPairs(s: string) {
    |s| <= 1 || (!(s[0] == '\\' && (s[1] == 'n' || s[1] == '=' || s[1] == '\\')) && NoPairs(s[1..]))
  }

  lemma {:induction false} UnescapeFixes(s: string)
    ensures Unescape(s) == s <==> NoPairs(s)
  {
    if |s| <= 1 {
      assert s != [] ==> s == [s[0]] && s[1..] == [];
    } else if s[0] != '\\' {
      UnescapeFixes(s[1..]);
      assert s == [s[0]] + s[1..];
      assert Unescape(s)[1..] == Unescape(s[1..]);
    } else if |EscapedPair(s[1])| == 1 {
      UnescapeShortens(s[2..]);
    } else {
      UnescapeFixes(s[2..]);
      assert s == [s[0], s[1]] + s[2..] && s[1..][1..] == s[2..];
      assert Unescape(s)[2..] == Unescape(s[2..]);
    }
  }

  // ---------- trimming ----------

  /** The Unicode property White_Space. */
  predicate White(c: char) {
    var n := c as int;
    9 <= n <= 13 || n == 0x20 || n == 0x85 || n == 0xA0 || n == 0x1680 || 0x2000 <= n <= 0x200A
    || n == 0x2028 || n == 0x2029 || n == 0x202F || n == 0x205F || n == 0x3000
  }

  /** With `newlines`, the white space Rust's `trim` drops; without, the same except newlines. */
  predicate Drops(c: char, newlines: bool) { White(c) && (newlines || c != '\n') }

  function TrimStart(s: string, newlines: bool): string {
    if s != [] && Drops(s[0], newlines) then TrimStart(s[1..], newlines) else s
  }

  function TrimEnd(s: string, newlines: bool): string {
    if s != [] && Drops(s[|s| - 1], newlines) then TrimEnd(s[..|s| - 1], newlines) else s
  }

  function Trim(s: string, newlines: bool): string { TrimEnd(TrimStart(s, newlines), newlines) }

  /** Neither end is white space that `Trim` drops. */
  predicate Tight(s: string, newlines: bool) {
    s != [] ==> !Drops(s[0], newlines) && !Drops(s[|s| - 1], newlines)
  }

  lemma {:induction false} TrimStartFacts(s: string, newlines: bool)
    ensures var t := TrimStart(s, newlines);
      |t| <= |s| && (t != [] ==> !Drops(t[0], newlines)) && (forall c :: c in t ==> c in s)
  {
    if s != [] { TrimStartFacts(s[1..], newlines); }
  }

  lemma {:induction false} TrimEndFacts(s: string, newlines: bool)
    ensures var t := TrimEnd(s, newlines);
      t <= s && (t != [] ==> !Drops(t[|t| - 1], newlines))
  {
    if s != [] { TrimEndFacts(s[..|s| - 1], newlines); }
  }

  lemma TrimFacts(s: string, newlines: bool)
    ensures var t := Trim(s, newlines);
      Tight(t, newlines) && |t| <= |s| && (forall c :: c in t ==> c in s) && (t == s <==> Tight(s, newlines))
  {
    TrimStartFacts(s, newlines);
    TrimEndFacts(TrimStart(s, newlines), newlines);
    if s != [] && Drops(s[0], newlines) { TrimStartFacts(s[1..], newlines); }
  }

  /** A carriage return before the line feed goes with the line ending; `trim` would drop it. */
  function StripCr(line: string): string {
    if line != [] && line[|line| - 1] == '\r' then line[..|line| - 1] else line
  }

  lemma {:induction false} TrimStartSnoc(s: string, c: char)
    requires Drops(c, true)
    ensures TrimEnd(TrimStart(s + [c], true), true) == TrimEnd(TrimStart(s, true), true)
  {
    if s == [] {
      assert ([] + [c])[1..] == [];
      assert TrimStart([c], true) == [];
    } else if Drops(s[0], true) {
      assert (s + [c])[1..] == s[1..] + [c];
      TrimStartSnoc(s[1..], c);
    } else {
      assert (s + [c])[..|s|] == s;
    }
  }

  lemma TrimStripCr(s: string)
    ensures Trim(StripCr(s), true) == Trim(s, true)
  {
    if s != [] && s[|s| - 1] == '\r' {
      assert s == s[..|s| - 1] + ['\r'];
      TrimStartSnoc(s[..|s| - 1], '\r');
    }
  }

  lemma {:induction false} TrimStartEscape(s: string)
    ensures TrimStart(Escape(s), true) == Escape(TrimStart(s, false))
  {
    if s != [] {
      EscapeCons(s);
      if Drops(s[0], false) {
        assert Escape(s)[1..] == Escape(s[1..]);
        TrimStartEscape(s[1..]);
      }
    }
  }

  lemma {:induction false} TrimEndEscape(s: string)
    ensures TrimEnd(Escape(s), true) == Escape(TrimEnd(s, false))
  {
    if s != [] {
      EscapeSnoc(s);
      var e := EscapeChar(s[|s| - 1]);
      assert Escape(s)[|Escape(s)| - 1] == e[|e| - 1];
      if Drops(s[|s| - 1], false) {
        assert Escape(s)[..|Escape(s)| - 1] == Escape(s[..|s| - 1]);
        TrimEndEscape(s[..|s| - 1]);
      }
    }
  }

  /** An item written and read back loses its outer white space, but no newline. */
  lemma ItemReadBack(s: string)
    ensures Unescape(Trim(Escape(s), true)) == Trim(s, false)
  {
    TrimStartEscape(s);
    TrimEndEscape(TrimStart(s, false));
    UnescapeEscape(Trim(s, false));
  }

  lemma TrimSameLength(s: string)
    ensures |Trim(s, true)| == |s| ==> Trim(s, true) == s
  {
    TrimStartFacts(s, true);
    TrimEndFacts(TrimStart(s, true), true);
    if s != [] && Drops(s[0], true) { TrimStartFacts(s[1..], true); }
  }
}
