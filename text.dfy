/**
 * The JavaScript string built-ins the section rewriter relies on:
 * `String.prototype.trim`, `split("\n")` and `Array.prototype.join("\n")`,
 * over Dafny strings (`seq<char>`).
 */
module Text {

  /** The white-space set shared by the regular-expression class `\s` and by `trim`:
      ECMAScript's WhiteSpace and LineTerminator code points. */
  predicate IsSpace(c: char) {
    c == ' ' || c == '\t' || c == '\n' || c == '\r' || c == '\U{000B}' || c == '\U{000C}' ||
    c == '\U{00A0}' || c == '\U{1680}' || ('\U{2000}' <= c <= '\U{200A}') ||
    c == '\U{2028}' || c == '\U{2029}' || c == '\U{202F}' || c == '\U{205F}' ||
    c == '\U{3000}' || c == '\U{FEFF}'
  }

  predicate AllSpace(s: string) {
    forall i :: 0 <= i < |s| ==> IsSpace(s[i])
  }

  /** `s` with its leading white space removed. */
  function TrimStart(s: string): string {
    if |s| > 0 && IsSpace(s[0]) then TrimStart(s[1..]) else s
  }

  /** `s` with its trailing white space removed. */
  function TrimEnd(s: string): string {
    if |s| > 0 && IsSpace(s[|s| - 1]) then TrimEnd(s[..|s| - 1]) else s
  }

  /** `s.trim()`: white space removed from both ends. */
  function Trim(s: string): string {
    TrimEnd(TrimStart(s))
  }

  /** TrimStart drops a run of white space from the front, and all of it. */
  lemma {:induction false} TrimStartRemovesLeadingSpace(s: string)
    ensures var r := TrimStart(s);
            |r| <= |s| && r == s[|s| - |r|..] && AllSpace(s[..|s| - |r|]) && (r == [] || !IsSpace(r[0]))
    decreases |s|
  {
    if |s| > 0 && IsSpace(s[0]) {
      TrimStartRemovesLeadingSpace(s[1..]);
      var r := TrimStart(s);
      assert s[1..][..|s| - 1 - |r|] == s[1..|s| - |r|];
    }
  }

  /** TrimEnd drops a run of white space from the back, and all of it. */
  lemma {:induction false} TrimEndRemovesTrailingSpace(s: string)
    ensures var r := TrimEnd(s);
            |r| <= |s| && r == s[..|r|] && AllSpace(s[|r|..]) && (r == [] || !IsSpace(r[|r| - 1]))
    decreases |s|
  {
    if |s| > 0 && IsSpace(s[|s| - 1]) {
      var t := s[..|s| - 1];
      TrimEndRemovesTrailingSpace(t);
      var r := TrimEnd(t);
      assert TrimEnd(s) == r;
      assert r == s[..|r|] by {
        assert t[..|r|] == s[..|r|];
      }
      assert s[|r|..] == t[|r|..] + [s[|s| - 1]];
    } else {
      assert s[|s|..] == [];
    }
  }

  /** What `trim` returns: the piece `s[i..i + |r|]` of `s` with nothing but white space around
      it, and nothing left to remove (it neither starts nor ends with white space). */
  lemma {:induction false} TrimIsInnerPiece(s: string)
    ensures var r := Trim(s);
            (exists i {:trigger s[..i]} :: 0 <= i <= |s| - |r| && r == s[i..i + |r|] && AllSpace(s[..i]) && AllSpace(s[i + |r|..])) &&
            (r == [] || (!IsSpace(r[0]) && !IsSpace(r[|r| - 1])))
  {
    var t := TrimStart(s);
    var r := TrimEnd(t);
    TrimStartRemovesLeadingSpace(s);
    TrimEndRemovesTrailingSpace(t);
    InnerPiece(s, t, r);
    if r != [] {
      assert r[0] == t[0];
    }
  }

  /** A prefix `r` of a suffix `t` of `s`, with white space around it, is a piece of `s` with
      white space around it. */
  lemma {:induction false} InnerPiece(s: string, t: string, r: string)
    requires |t| <= |s| && t == s[|s| - |t|..] && AllSpace(s[..|s| - |t|])
    requires |r| <= |t| && r == t[..|r|] && AllSpace(t[|r|..])
    ensures var i := |s| - |t|;
            r == s[i..i + |r|] && AllSpace(s[..i]) && AllSpace(s[i + |r|..])
  {
    var i := |s| - |t|;
    assert t[|r|..] == s[i + |r|..];
  }

  /** A text that neither starts nor ends with white space is its own trim. */
  lemma {:induction false} TrimOfTrimmed(s: string)
    requires s == [] || (!IsSpace(s[0]) && !IsSpace(s[|s| - 1]))
    ensures Trim(s) == s
  {
  }

  /** Trimming twice is trimming once. */
  lemma {:induction false} TrimIdempotent(s: string)
    ensures Trim(Trim(s)) == Trim(s)
  {
    TrimIsInnerPiece(s);
    TrimOfTrimmed(Trim(s));
  }

  /** `s.split("\n")`: the pieces of `s` between line feeds; `"".split("\n")` is `[""]`. */
  function Split(s: string): (lines: seq<string>)
    ensures |lines| >= 1
  {
    if |s| == 0 then [""]
    else
      var rest := Split(s[1..]);
      if s[0] == '\n' then [""] + rest
      else [[s[0]] + rest[0]] + rest[1..]
  }

  /** `lines.join("\n")`: the lines separated by line feeds; `[].join("\n")` is `""`. */
  function Join(lines: seq<string>): string {
    if |lines| == 0 then ""
    else if |lines| == 1 then lines[0]
    else lines[0] + "\n" + Join(lines[1..])
  }

  predicate NoNewlines(lines: seq<string>) {
    forall k :: 0 <= k < |lines| ==> '\n' !in lines[k]
  }

  /** No piece of a split holds a line feed. */
  lemma {:induction false} SplitHasNoNewlines(s: string)
    ensures NoNewlines(Split(s))
    decreases |s|
  {
    if |s| > 0 {
      SplitHasNoNewlines(s[1..]);
    }
  }

  /** Joining the pieces of a split gives back the text it came from. */
  lemma {:induction false} JoinSplit(s: string)
    ensures Join(Split(s)) == s
    decreases |s|
  {
    if |s| > 0 {
      var rest := Split(s[1..]);
      JoinSplit(s[1..]);
      if s[0] == '\n' {
        assert s == "\n" + s[1..];
      } else if |rest| == 1 {
        assert s == [s[0]] + s[1..];
      } else {
        assert Join(rest) == rest[0] + "\n" + Join(rest[1..]);
        assert s == [s[0]] + s[1..];
      }
    }
  }

  /** A text with no line feed is one line. */
  lemma {:induction false} SplitOneLine(s: string)
    requires '\n' !in s
    ensures Split(s) == [s]
    decreases |s|
  {
    if |s| > 0 {
      SplitOneLine(s[1..]);
      assert s == [s[0]] + s[1..];
    }
  }

  /** Splitting at a line feed splits the two sides independently. */
  lemma {:induction false} SplitAtNewline(a: string, b: string)
    ensures Split(a + "\n" + b) == Split(a) + Split(b)
    decreases |a|
  {
    if |a| == 0 {
      assert a + "\n" + b == ['\n'] + b;
      SplitCons('\n', b);
    } else {
      assert a == [a[0]] + a[1..];
      SplitAtNewline(a[1..], b);
      SplitAtNewlineStep(a[0], a[1..], b);
    }
  }

  /** The inductive step of `SplitAtNewline`: one more character in front. */
  lemma {:induction false} SplitAtNewlineStep(c: char, t: string, b: string)
    requires Split(t + "\n" + b) == Split(t) + Split(b)
    ensures Split([c] + t + "\n" + b) == Split([c] + t) + Split(b)
  {
    assert [c] + t + "\n" + b == [c] + (t + "\n" + b);
    SplitCons(c, t + "\n" + b);
    SplitCons(c, t);
    if c == '\n' {
      LinesAssociate([""], Split(t), Split(b));
    } else {
      FirstLineExtends([c], Split(t), Split(b));
    }
  }

  lemma {:induction false} LinesAssociate(x: seq<string>, p: seq<string>, q: seq<string>)
    ensures x + (p + q) == (x + p) + q
  {
  }

  lemma {:induction false} FirstLineExtends(prefix: string, p: seq<string>, q: seq<string>)
    requires |p| >= 1
    ensures [prefix + (p + q)[0]] + (p + q)[1..] == ([prefix + p[0]] + p[1..]) + q
  {
    assert (p + q)[0] == p[0];
    assert (p + q)[1..] == p[1..] + q;
  }

  /** One step of `Split`: a first character that is a line feed ends an empty first line,
      any other starts the first line. */
  lemma {:induction false} SplitCons(c: char, t: string)
    ensures Split([c] + t) == if c == '\n' then [""] + Split(t) else [[c] + Split(t)[0]] + Split(t)[1..]
  {
    assert ([c] + t)[1..] == t;
  }

  /** Joining two non-empty runs of lines puts one line feed between their joins. */
  lemma {:induction false} JoinAppend(xs: seq<string>, ys: seq<string>)
    requires |xs| >= 1 && |ys| >= 1
    ensures Join(xs + ys) == Join(xs) + "\n" + Join(ys)
    decreases |xs|
  {
    if |xs| > 1 {
      assert (xs + ys)[1..] == xs[1..] + ys;
      JoinAppend(xs[1..], ys);
    }
  }

  /** Lines without line feeds come back unchanged from a join followed by a split. */
  lemma {:induction false} SplitJoin(lines: seq<string>)
    requires |lines| >= 1 && NoNewlines(lines)
    ensures Split(Join(lines)) == lines
    decreases |lines|
  {
    SplitOneLine(lines[0]);
    if |lines| > 1 {
      SplitJoin(lines[1..]);
      SplitAtNewline(lines[0], Join(lines[1..]));
      assert lines == [lines[0]] + lines[1..];
    }
  }

  /** Lines without line feeds in front of more lines come back unchanged from a join
      followed by a split. */
  lemma {:induction false} SplitJoinAfter(xs: seq<string>, rest: seq<string>)
    requires |xs| >= 1 && NoNewlines(xs) && |rest| >= 1
    ensures Split(Join(xs + rest)) == xs + Split(Join(rest))
  {
    JoinAppend(xs, rest);
    SplitJoin(xs);
    SplitAtNewline(Join(xs), Join(rest));
  }

  /** A block in front of lines without line feeds: the block comes back split, the lines
      come back unchanged. */
  lemma {:induction false} SplitJoinBefore(block: string, ys: seq<string>)
    requires NoNewlines(ys)
    ensures Split(Join([block] + ys)) == Split(block) + ys
  {
    if |ys| > 0 {
      JoinAppend([block], ys);
      SplitJoin(ys);
      SplitAtNewline(block, Join(ys));
    }
  }

  /** Splitting a join of whole lines around one block of text that may hold line feeds:
      the lines before and after come back as they were, the block comes back split. */
  lemma {:induction false} SplitJoinAround(xs: seq<string>, block: string, ys: seq<string>)
    requires NoNewlines(xs) && NoNewlines(ys)
    ensures Split(Join(xs + [block] + ys)) == xs + Split(block) + ys
  {
    SplitJoinBefore(block, ys);
    if |xs| == 0 {
      assert xs + [block] + ys == [block] + ys;
      assert xs + Split(block) + ys == Split(block) + ys;
    } else {
      SplitJoinAroundAfter(xs, block, ys);
    }
  }

  lemma {:induction false} SplitJoinAroundAfter(xs: seq<string>, block: string, ys: seq<string>)
    requires |xs| >= 1 && NoNewlines(xs) && Split(Join([block] + ys)) == Split(block) + ys
    ensures Split(Join(xs + [block] + ys)) == xs + Split(block) + ys
  {
    var tail := [block] + ys;
    assert xs + [block] + ys == xs + tail;
    SplitJoinAfter(xs, tail);
  }
}
