/** String operations the loader and the selector rely on: JavaScript's
    `trim`, `split(/\r?\n/)`, `split('/').pop()`, and the ordering used to
    sort folder names. Strings are sequences of code points. */
module Text {

  /** The characters `String.prototype.trim` removes, by code point: the
      ECMAScript WhiteSpace characters (TAB, VT, FF, SP, NBSP, ZWNBSP and the
      other space separators of Unicode category Zs) and LineTerminator
      characters (LF, CR, LS, PS). */
  predicate IsSpace(c: char) {
    var n := c as int;
    || 0x09 <= n <= 0x0D || n == 0x20 || n == 0xA0 || n == 0x1680
    || 0x2000 <= n <= 0x200A || n == 0x2028 || n == 0x2029 || n == 0x202F
    || n == 0x205F || n == 0x3000 || n == 0xFEFF
  }

  predicate AllSpace(s: string) {
    forall i :: 0 <= i < |s| ==> IsSpace(s[i])
  }

  /** Removes leading white space. */
  function TrimStart(s: string): string
    decreases |s|
  {
    if s != [] && IsSpace(s[0]) then TrimStart(s[1..]) else s
  }

  /** Removes trailing white space. */
  function TrimEnd(s: string): string
    decreases |s|
  {
    if s != [] && IsSpace(s[|s| - 1]) then TrimEnd(s[..|s| - 1]) else s
  }

  /** `TrimStart` keeps the longest suffix of `s` that does not start with
      white space. */
  lemma {:induction false} TrimStartSpec(s: string)
    ensures var r := TrimStart(s);
      && |r| <= |s| && r == s[|s| - |r|..]
      && AllSpace(s[..|s| - |r|])
      && (r != [] ==> !IsSpace(r[0]))
    decreases |s|
  {
    if s != [] && IsSpace(s[0]) {
      TrimStartSpec(s[1..]);
      AllSpaceCons(s, |s| - |TrimStart(s[1..])|);
    }
  }

  /** `TrimEnd` keeps the longest prefix of `s` that does not end with white
      space. */
  lemma {:induction false} TrimEndSpec(s: string)
    ensures var r := TrimEnd(s);
      && |r| <= |s| && r == s[..|r|]
      && AllSpace(s[|r|..])
      && (r != [] ==> !IsSpace(r[|r| - 1]))
    decreases |s|
  {
    if s != [] && IsSpace(s[|s| - 1]) {
      TrimEndSpec(s[..|s| - 1]);
      AllSpaceSnoc(s, |TrimEnd(s[..|s| - 1])|);
    }
  }

  lemma AllSpaceCons(s: string, k: nat)
    requires 1 <= k <= |s| && IsSpace(s[0]) && AllSpace(s[1..][..k - 1])
    ensures AllSpace(s[..k])
  {
    forall i | 0 <= i < k ensures IsSpace(s[..k][i]) {
      if i > 0 {
        assert s[..k][i] == s[1..][..k - 1][i - 1];
      }
    }
  }

  lemma AllSpaceSnoc(s: string, k: nat)
    requires k < |s| && IsSpace(s[|s| - 1]) && AllSpace(s[..|s| - 1][k..])
    ensures AllSpace(s[k..])
  {
    forall i | 0 <= i < |s| - k ensures IsSpace(s[k..][i]) {
      if i < |s| - 1 - k {
        assert s[k..][i] == s[..|s| - 1][k..][i];
      }
    }
  }

  /** `r` is the slice `s[i..i + |r|]` and only white space lies around it. */
  predicate TrimmedAt(s: string, r: string, i: nat) {
    && i + |r| <= |s|
    && r == s[i..i + |r|]
    && AllSpace(s[..i])
    && AllSpace(s[i + |r|..])
  }

  lemma AllSpaceJoin(s: string, i: nat)
    requires i <= |s| && AllSpace(s[..i]) && AllSpace(s[i..])
    ensures AllSpace(s)
  {
    forall k | 0 <= k < |s| ensures IsSpace(s[k]) {
      if k < i { assert s[k] == s[..i][k]; } else { assert s[k] == s[i..][k - i]; }
    }
  }

  /** `String.prototype.trim`. */
  function Trim(s: string): (r: string)
    ensures |r| <= |s|
  {
    TrimStartSpec(s);
    TrimEndSpec(TrimStart(s));
    TrimEnd(TrimStart(s))
  }

  /** The trim of `s` is a slice of `s` with only white space around it and
      none at its ends; it is empty exactly when `s` is all white space. */
  lemma TrimSpec(s: string)
    ensures var r := Trim(s);
      && (exists i: nat :: TrimmedAt(s, r, i))
      && (r == [] <==> AllSpace(s))
      && (r != [] ==> !IsSpace(r[0]) && !IsSpace(r[|r| - 1]))
  {
    var t := TrimStart(s);
    var r := TrimEnd(t);
    TrimStartSpec(s);
    TrimEndSpec(t);
    var i := |s| - |t|;
    TrimmedAtOf(s, t, r);
    assert r == Trim(s) && TrimmedAt(s, r, i);
    assert r != [] ==> r[0] == s[i];
    if r == [] {
      assert t == s[i..];
      AllSpaceJoin(s, i);
    }
  }

  /** Trimming the front and then the back leaves a slice of `s` with only
      white space around it. */
  lemma TrimmedAtOf(s: string, t: string, r: string)
    requires |t| <= |s| && t == s[|s| - |t|..] && AllSpace(s[..|s| - |t|])
    requires |r| <= |t| && r == t[..|r|] && AllSpace(t[|r|..])
    ensures TrimmedAt(s, r, |s| - |t|)
  {
    var i := |s| - |t|;
    assert s[i..i + |r|] == t[..|r|];
    assert s[i + |r|..] == t[|r|..];
  }

  /** A string that neither starts nor ends with white space is its own
      trim, from either side. */
  lemma TrimOfUnpadded(s: string)
    requires s != [] && !IsSpace(s[0]) && !IsSpace(s[|s| - 1])
    ensures TrimStart(s) == s && TrimEnd(s) == s && Trim(s) == s
  {
  }

  /** Trimming twice is trimming once. */
  lemma TrimIdempotent(s: string)
    ensures Trim(Trim(s)) == Trim(s)
  {
    TrimSpec(s);
    if Trim(s) != [] {
      TrimOfUnpadded(Trim(s));
    }
  }

  /** Glues lines back together with LF separators; the inverse of `SplitLf`. */
  function JoinLf(lines: seq<string>): string
    requires |lines| >= 1
  {
    if |lines| == 1 then lines[0] else lines[0] + "\n" + JoinLf(lines[1..])
  }

  /** `split('\n')`: the pieces between line feeds, in order. There is always
      at least one piece; an empty string gives one empty piece. */
  function SplitLf(s: string): (lines: seq<string>)
    ensures |lines| >= 1
    decreases |s|
  {
    if s == [] then [""]
    else if s[0] == '\n' then [""] + SplitLf(s[1..])
    else
      var rest := SplitLf(s[1..]);
      [[s[0]] + rest[0]] + rest[1..]
  }

  /** The pieces hold no line feed and glue back into `s`. */
  lemma {:induction false} SplitLfSpec(s: string)
    ensures forall k :: 0 <= k < |SplitLf(s)| ==> '\n' !in SplitLf(s)[k]
    ensures JoinLf(SplitLf(s)) == s
    decreases |s|
  {
    if s != [] {
      var rest := SplitLf(s[1..]);
      SplitLfSpec(s[1..]);
      if s[0] == '\n' {
        assert SplitLf(s)[1..] == rest;
        assert s == "" + "\n" + JoinLf(rest);
      } else {
        var lines := SplitLf(s);
        assert lines[1..] == rest[1..];
        assert '\n' !in lines[0] by {
          assert forall c :: c in lines[0] ==> c == s[0] || c in rest[0];
        }
        if |rest| > 1 {
          assert JoinLf(rest) == rest[0] + "\n" + JoinLf(rest[1..]);
          assert JoinLf(lines) == lines[0] + "\n" + JoinLf(rest[1..]);
        }
        assert s == [s[0]] + s[1..];
      }
    }
  }

  /** Splitting a string that starts with an LF-free `line` puts `line` in
      front of the first piece of the rest. */
  lemma {:induction false} SplitLfAfterLine(line: string, rest: string)
    requires '\n' !in line
    ensures SplitLf(line + rest) == [line + SplitLf(rest)[0]] + SplitLf(rest)[1..]
    decreases |line|
  {
    if line == [] {
      var pieces := SplitLf(rest);
      assert line + rest == rest;
      assert line + pieces[0] == pieces[0];
      assert [line + pieces[0]] + pieces[1..] == pieces;
    } else {
      assert '\n' !in line[1..] by {
        assert forall c :: c in line[1..] ==> c in line;
      }
      SplitLfAfterLine(line[1..], rest);
      assert (line + rest)[1..] == line[1..] + rest;
      assert line[0] != '\n' by { assert line[0] in line; }
      assert [line[0]] + (line[1..] + SplitLf(rest)[0]) == line + SplitLf(rest)[0];
    }
  }

  /** Splitting a join of LF-free lines gives the lines back. */
  lemma {:induction false} SplitJoinLf(lines: seq<string>)
    requires |lines| >= 1
    requires forall k :: 0 <= k < |lines| ==> '\n' !in lines[k]
    ensures SplitLf(JoinLf(lines)) == lines
    decreases |lines|
  {
    if |lines| == 1 {
      SplitLfAfterLine(lines[0], "");
      assert lines[0] + "" == lines[0];
    } else {
      var joined := JoinLf(lines[1..]);
      SplitJoinLf(lines[1..]);
      SplitLfAfterNewline(joined);
      SplitLfAfterLine(lines[0], "\n" + joined);
      assert JoinLf(lines) == lines[0] + ("\n" + joined);
      assert lines[0] + "" == lines[0];
    }
  }

  /** A leading LF ends an empty first line. */
  lemma SplitLfAfterNewline(rest: string)
    ensures SplitLf("\n" + rest) == [""] + SplitLf(rest)
  {
    assert ("\n" + rest)[1..] == rest;
  }

  /** Drops one carriage return at the end of a line. */
  function StripCr(line: string): string {
    if line != [] && line[|line| - 1] == '\r' then line[..|line| - 1] else line
  }

  /** `split(/\r?\n/)`: every LF separates two lines and swallows the CR
      immediately before it. A CR with no LF after it, such as one at the
      very end of the text, stays. */
  function Lines(s: string): (lines: seq<string>)
    ensures |lines| == |SplitLf(s)|
    ensures forall k :: 0 <= k < |lines| - 1 ==> lines[k] == StripCr(SplitLf(s)[k])
    ensures lines[|lines| - 1] == SplitLf(s)[|lines| - 1]
  {
    var pieces := SplitLf(s);
    seq(|pieces|, k requires 0 <= k < |pieces| => if k < |pieces| - 1 then StripCr(pieces[k]) else pieces[k])
  }

  /** A text without line feeds is a single line, kept as it is, a final CR
      included. */
  lemma LinesWithoutLf(s: string)
    requires '\n' !in s
    ensures Lines(s) == [s]
  {
    SplitJoinLf([s]);
  }

  /** `split('/').pop()` when `s` contains a slash, else `s` itself: the text
      after the last slash. */
  function LastSegment(s: string): (r: string)
    ensures |r| <= |s| && r == s[|s| - |r|..]
    ensures '/' !in r
    ensures '/' in s ==> |r| < |s| && s[|s| - |r| - 1] == '/'
    ensures '/' !in s ==> r == s
    decreases |s|
  {
    if s == [] then []
    else if s[|s| - 1] == '/' then []
    else
      var init := s[..|s| - 1];
      var r := LastSegment(init) + [s[|s| - 1]];
      assert s == init + [s[|s| - 1]];
      assert '/' in s ==> '/' in init;
      r
  }

  /** Lexicographic order on code points: the stand-in for `localeCompare`. */
  predicate LessOrEqual(a: string, b: string)
    decreases |a|
  {
    a == [] || (b != [] && (a[0] < b[0] || (a[0] == b[0] && LessOrEqual(a[1..], b[1..]))))
  }

  lemma {:induction false} LessOrEqualReflexive(a: string)
    ensures LessOrEqual(a, a)
    decreases |a|
  {
    if a != [] {
      LessOrEqualReflexive(a[1..]);
    }
  }

  lemma {:induction false} LessOrEqualTotal(a: string, b: string)
    ensures LessOrEqual(a, b) || LessOrEqual(b, a)
    decreases |a|
  {
    if a != [] && b != [] && a[0] == b[0] {
      LessOrEqualTotal(a[1..], b[1..]);
    }
  }

  lemma {:induction false} LessOrEqualTransitive(a: string, b: string, c: string)
    requires LessOrEqual(a, b) && LessOrEqual(b, c)
    ensures LessOrEqual(a, c)
    decreases |a|
  {
    if a != [] && a[0] == b[0] && b[0] == c[0] {
      LessOrEqualTransitive(a[1..], b[1..], c[1..]);
    }
  }

  lemma {:induction false} LessOrEqualAntisymmetric(a: string, b: string)
    requires LessOrEqual(a, b) && LessOrEqual(b, a)
    ensures a == b
    decreases |a|
  {
    if a != [] {
      LessOrEqualAntisymmetric(a[1..], b[1..]);
      assert a == [a[0]] + a[1..] && b == [b[0]] + b[1..];
    }
  }
}
