/** The JavaScript string operations the core relies on: white space (the `\s`
    class of regular expressions and the trimming done by `BigInt`/`parseFloat`),
    `toLowerCase`, `includes`, `split`, `padEnd`, `replace`. */
module JsText {
  import opened Digits

  /** A JavaScript WhiteSpace or LineTerminator code point (the `\s` class). */
  predicate IsJsSpace(c: char)
  {
    || c == '\t' || c == '\n' || c == '\U{000B}' || c == '\U{000C}' || c == '\r' || c == ' '
    || c == '\U{00A0}' || c == '\U{1680}' || ('\U{2000}' <= c <= '\U{200A}')
    || c == '\U{2028}' || c == '\U{2029}' || c == '\U{202F}' || c == '\U{205F}'
    || c == '\U{3000}' || c == '\U{FEFF}'
  }

  function LowerChar(c: char): char
  {
    if 'A' <= c <= 'Z' then (c as int + 32) as char else c
  }

  /** `toLowerCase`, on the ASCII letters. */
  function Lower(s: string): (r: string)
    ensures |r| == |s|
  {
    if s == [] then "" else [LowerChar(s[0])] + Lower(s[1..])
  }

  lemma {:induction false} LowerAt(s: string, i: nat)
    requires i < |s|
    ensures Lower(s)[i] == LowerChar(s[i])
  {
    if i > 0 {
      LowerAt(s[1..], i - 1);
    }
  }

  /** Lower-casing turns each upper-case ASCII letter into its lower-case partner, never
      leaves an upper-case ASCII letter and keeps every other character. */
  lemma LowerSpec(s: string)
    ensures forall i :: 0 <= i < |s| && 'A' <= s[i] <= 'Z' ==> Lower(s)[i] as int == s[i] as int + 32 && 'a' <= Lower(s)[i] <= 'z'
    ensures forall i :: 0 <= i < |s| ==> !('A' <= Lower(s)[i] <= 'Z')
    ensures forall i :: 0 <= i < |s| && !('A' <= s[i] <= 'Z') ==> Lower(s)[i] == s[i]
  {
    forall i | 0 <= i < |s| {
      LowerAt(s, i);
    }
  }

  /** Text without upper-case ASCII letters, white space for one, is its own lower case. */
  lemma {:induction false} LowerUnchanged(s: string)
    requires forall i :: 0 <= i < |s| ==> !('A' <= s[i] <= 'Z')
    ensures Lower(s) == s
  {
    if s != [] {
      LowerUnchanged(s[1..]);
      assert [s[0]] + s[1..] == s;
    }
  }

  /** Lower-casing works character by character, so it distributes over concatenation. */
  lemma {:induction false} LowerConcat(a: string, b: string)
    ensures Lower(a + b) == Lower(a) + Lower(b)
  {
    if a != [] {
      assert (a + b)[1..] == a[1..] + b;
      LowerConcat(a[1..], b);
    } else {
      assert a + b == b;
    }
  }

  /** Lower-casing keeps a part that is its own lower case in place between the others. */
  lemma LowerAround(a: string, w: string, b: string)
    requires Lower(w) == w
    ensures Lower(a + w + b) == Lower(a) + w + Lower(b)
  {
    var rest, la, lb := w + b, Lower(a), Lower(b);
    assert a + w + b == a + rest;
    LowerConcat(a, rest);
    LowerConcat(w, b);
    assert la + (w + lb) == la + w + lb;
  }

  /** Drops leading white space. */
  function TrimStart(s: string): (r: string)
    ensures |r| <= |s| && (s != [] && IsJsSpace(s[0]) ==> |r| < |s|)
    ensures r != [] ==> !IsJsSpace(r[0])
  {
    if s != [] && IsJsSpace(s[0]) then TrimStart(s[1..]) else s
  }

  /** Drops trailing white space. */
  function TrimEnd(s: string): (r: string)
    ensures |r| <= |s|
    ensures r != [] ==> !IsJsSpace(r[|r| - 1])
  {
    if s != [] && IsJsSpace(s[|s| - 1]) then TrimEnd(s[..|s| - 1]) else s
  }

  function Trim(s: string): string
  {
    TrimEnd(TrimStart(s))
  }

  /** A string whose ends are not white space is its own trim. */
  lemma TrimNoSpace(s: string)
    requires s != [] ==> !IsJsSpace(s[0]) && !IsJsSpace(s[|s| - 1])
    ensures Trim(s) == s
  {
  }

  /** `s.includes(sub)`: `sub` occurs in `s` at some position. */
  predicate Includes(s: string, sub: string)
  {
    exists i :: 0 <= i <= |s| && OccursAt(s, sub, i)
  }

  predicate OccursAt(s: string, sub: string, i: nat)
  {
    i + |sub| <= |s| && s[i..i + |sub|] == sub
  }

  /** `s.split(sep)` for a one-character separator. */
  function Split(s: string, sep: char): (parts: seq<string>)
    ensures |parts| >= 1
    ensures forall k :: 0 <= k < |parts| ==> sep !in parts[k]
  {
    if s == [] then [""]
    else if s[0] == sep then [""] + Split(s[1..], sep)
    else
      var rest := Split(s[1..], sep);
      [[s[0]] + rest[0]] + rest[1..]
  }

  /** `parts.join(sep)`. */
  function Join(parts: seq<string>, sep: char): string
  {
    if parts == [] then ""
    else if |parts| == 1 then parts[0]
    else parts[0] + [sep] + Join(parts[1..], sep)
  }

  /** Splitting loses nothing: joining the parts back gives the input. */
  lemma {:induction false} SplitJoin(s: string, sep: char)
    ensures Join(Split(s, sep), sep) == s
  {
    if s != [] {
      SplitJoin(s[1..], sep);
      var rest := Split(s[1..], sep);
      if s[0] != sep {
        if |rest| == 1 {
          assert Split(s, sep) == [[s[0]] + rest[0]];
        } else {
          var parts := Split(s, sep);
          assert parts[1..] == rest[1..];
          assert Join(parts, sep) == [s[0]] + rest[0] + [sep] + Join(rest[1..], sep);
        }
      }
    }
  }

  /** A string without the separator is a single part. */
  lemma {:induction false} SplitNoSep(s: string, sep: char)
    requires sep !in s
    ensures Split(s, sep) == [s]
  {
    if s != [] {
      SplitNoSep(s[1..], sep);
      assert [s[0]] + s[1..] == s;
    }
  }

  /** The first part is everything before the first separator. */
  lemma {:induction false} SplitAtFirst(a: string, sep: char, b: string)
    requires sep !in a
    ensures Split(a + [sep] + b, sep) == [a] + Split(b, sep)
  {
    if a != [] {
      assert (a + [sep] + b)[1..] == a[1..] + [sep] + b;
      SplitAtFirst(a[1..], sep, b);
      assert [a[0]] + a[1..] == a;
    } else {
      assert a + [sep] + b == [sep] + b;
    }
  }

  /** `s.padEnd(n, c)`: right-pad with `c` up to length `n`. */
  function PadEnd(s: string, n: nat, c: char): (r: string)
    ensures |r| == if |s| >= n then |s| else n
    ensures r[..|s|] == s
    ensures forall k :: |s| <= k < |r| ==> r[k] == c
  {
    if |s| >= n then s else s + Repeat(c, n - |s|)
  }

  /** `s.replace(c, replacement)` with a one-character string pattern: only the first occurrence. */
  function ReplaceFirst(s: string, c: char, replacement: string): (r: string)
    ensures c !in s ==> r == s
  {
    if s == [] then ""
    else if s[0] == c then replacement + s[1..]
    else [s[0]] + ReplaceFirst(s[1..], c, replacement)
  }

  /** `s.replace(/\s+/g, replacement)`: every maximal run of white space becomes `replacement`. */
  function ReplaceSpaceRuns(s: string, replacement: char): (r: string)
    ensures |r| <= |s|
    decreases |s|
  {
    if s == [] then ""
    else if IsJsSpace(s[0]) then [replacement] + ReplaceSpaceRuns(TrimStart(s), replacement)
    else [s[0]] + ReplaceSpaceRuns(s[1..], replacement)
  }

  /** The replacement leaves no white space behind (when the replacement is not itself space),
      and a string without white space comes back unchanged. */
  lemma {:induction false} ReplaceSpaceRunsSpec(s: string, replacement: char)
    requires !IsJsSpace(replacement)
    ensures forall i :: 0 <= i < |ReplaceSpaceRuns(s, replacement)| ==> !IsJsSpace(ReplaceSpaceRuns(s, replacement)[i])
    ensures (forall i :: 0 <= i < |s| ==> !IsJsSpace(s[i])) ==> ReplaceSpaceRuns(s, replacement) == s
    decreases |s|
  {
    if s != [] {
      if IsJsSpace(s[0]) {
        ReplaceSpaceRunsSpec(TrimStart(s), replacement);
      } else {
        ReplaceSpaceRunsSpec(s[1..], replacement);
        assert [s[0]] + s[1..] == s;
      }
    }
  }

  /** A maximal run of white space, however long, becomes exactly one `replacement`: the
      text around it is replaced independently. */
  lemma ReplaceSpaceRun(a: string, w: string, b: string, replacement: char)
    requires w != [] && forall i :: 0 <= i < |w| ==> IsJsSpace(w[i])
    requires a != [] ==> !IsJsSpace(a[|a| - 1])
    requires b != [] ==> !IsJsSpace(b[0])
    ensures ReplaceSpaceRuns(a + w + b, replacement)
         == ReplaceSpaceRuns(a, replacement) + [replacement] + ReplaceSpaceRuns(b, replacement)
  {
    var rest := w + b;
    assert a + w + b == a + rest;
    SpaceRunHead(w, b, replacement);
    ReplaceSpaceRunsSplit(a, rest, replacement);
  }

  lemma ReplaceSpaceRunsSplit(a: string, rest: string, replacement: char)
    requires a != [] ==> !IsJsSpace(a[|a| - 1])
    ensures ReplaceSpaceRuns(a + rest, replacement) == ReplaceSpaceRuns(a, replacement) + ReplaceSpaceRuns(rest, replacement)
  {
    if a != [] {
      var front, last := a[..|a| - 1], a[|a| - 1];
      assert a == front + [last] + [];
      assert a + rest == front + [last] + rest;
      ReplaceSpaceRunsAt(front, last, rest, replacement);
      ReplaceSpaceRunsAt(front, last, [], replacement);
    } else {
      assert a + rest == rest;
    }
  }

  lemma SpaceRunHead(w: string, b: string, replacement: char)
    requires w != [] && forall i :: 0 <= i < |w| ==> IsJsSpace(w[i])
    requires b != [] ==> !IsJsSpace(b[0])
    ensures ReplaceSpaceRuns(w + b, replacement) == [replacement] + ReplaceSpaceRuns(b, replacement)
  {
    assert (w + b)[0] == w[0];
    BlankTrimsAway(w);
    if b != [] {
      TrimStartConcat(w, b);
      assert TrimStart(w) + b == b;
    } else {
      assert w + b == w;
    }
  }

  /** Text of white space only trims to nothing. */
  lemma {:induction false} BlankTrimsAway(s: string)
    requires forall i :: 0 <= i < |s| ==> IsJsSpace(s[i])
    ensures TrimStart(s) == []
  {
    if s != [] {
      BlankTrimsAway(s[1..]);
    }
  }

  /** Two runs of white space are never merged across a non-space character: the
      replacement distributes over a split at a non-space character. */
  lemma {:induction false} ReplaceSpaceRunsAt(a: string, c: char, b: string, replacement: char)
    requires !IsJsSpace(c)
    ensures ReplaceSpaceRuns(a + [c] + b, replacement) == ReplaceSpaceRuns(a, replacement) + [c] + ReplaceSpaceRuns(b, replacement)
    decreases |a|
  {
    if a == [] {
      assert a + [c] + b == [c] + b;
      assert ([c] + b)[1..] == b;
    } else if IsJsSpace(a[0]) {
      var t := TrimStart(a);
      ReplaceSpaceRunsAt(t, c, b, replacement);
      SpaceHeadStep(a, c, b, replacement);
    } else {
      var whole := a + [c] + b;
      assert whole[0] == a[0];
      assert whole[1..] == a[1..] + [c] + b;
      ReplaceSpaceRunsAt(a[1..], c, b, replacement);
    }
  }

  lemma SpaceHeadStep(a: string, c: char, b: string, replacement: char)
    requires a != [] && IsJsSpace(a[0]) && !IsJsSpace(c)
    ensures ReplaceSpaceRuns(a + [c] + b, replacement) == [replacement] + ReplaceSpaceRuns(TrimStart(a) + [c] + b, replacement)
  {
    var whole := a + [c] + b;
    assert whole == a + ([c] + b);
    TrimStartConcat(a, [c] + b);
    assert TrimStart(whole) == TrimStart(a) + [c] + b;
    assert whole[0] == a[0];
    assert ReplaceSpaceRuns(whole, replacement) == [replacement] + ReplaceSpaceRuns(TrimStart(whole), replacement);
  }

  lemma {:induction false} TrimStartConcat(a: string, b: string)
    requires b != [] && !IsJsSpace(b[0])
    ensures TrimStart(a + b) == TrimStart(a) + b
  {
    if a != [] && IsJsSpace(a[0]) {
      assert (a + b)[1..] == a[1..] + b;
      TrimStartConcat(a[1..], b);
    } else if a == [] {
      assert a + b == b;
    }
  }

  /** Replacing the first `c` in a string whose prefix `a` holds no `c` rewrites just that one. */
  lemma {:induction false} ReplaceFirstAt(a: string, c: char, b: string, replacement: string)
    requires c !in a
    ensures ReplaceFirst(a + [c] + b, c, replacement) == a + replacement + b
  {
    var s := a + [c] + b;
    if a == [] {
      assert s == [c] + b && s[1..] == b;
    } else {
      assert s[0] == a[0] && s[1..] == a[1..] + [c] + b;
      ReplaceFirstAt(a[1..], c, b, replacement);
      assert [a[0]] + (a[1..] + replacement + b) == a + replacement + b;
    }
  }

  /** Dropping the first `c` from text that ends with its only `c` leaves the text before it. */
  lemma DropLastMark(s: string, body: string, c: char)
    requires c !in body && s == body + [c]
    ensures ReplaceFirst(s, c, "") == body
  {
    ReplaceFirstAt(body, c, "", "");
    assert body + [c] + "" == s;
    assert body + "" + "" == body;
  }
}
