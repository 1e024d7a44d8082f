/** The JavaScript string operations the pages use, on `seq<char>`:
    `trim`, `toLowerCase` (ASCII letters), `includes`, `split` on one
    character, `split(/\s+/)`, `join`, `slice`, and the round trips between
    splitting and joining. */
module Text {

  /** JavaScript's `\s` class, which is also what `trim` removes: the
      WhiteSpace and LineTerminator code points of ECMA-262. */
  predicate IsSpace(c: char) {
    var k := c as int;
    k == 0x09 || k == 0x0A || k == 0x0B || k == 0x0C || k == 0x0D || k == 0x20
    || k == 0xA0 || k == 0x1680 || (0x2000 <= k <= 0x200A)
    || k == 0x2028 || k == 0x2029 || k == 0x202F || k == 0x205F
    || k == 0x3000 || k == 0xFEFF
  }

  predicate NoSpace(s: string) {
    forall i :: 0 <= i < |s| ==> !IsSpace(s[i])
  }

  // ---------------------------------------------------------------- trim

  function TrimStart(s: string): (r: string)
    ensures |r| <= |s| && r == s[|s| - |r|..]
    ensures r == "" || !IsSpace(r[0])
    ensures forall i :: 0 <= i < |s| - |r| ==> IsSpace(s[i])
    decreases |s|
  {
    if |s| > 0 && IsSpace(s[0]) then TrimStart(s[1..]) else s
  }

  function TrimEnd(s: string): (r: string)
    ensures |r| <= |s| && r == s[..|r|]
    ensures r == "" || !IsSpace(r[|r| - 1])
    ensures forall i :: |r| <= i < |s| ==> IsSpace(s[i])
    decreases |s|
  {
    if |s| > 0 && IsSpace(s[|s| - 1]) then TrimEnd(s[..|s| - 1]) else s
  }

  /** `s.trim()` */
  function Trim(s: string): (r: string)
    ensures r == "" || (!IsSpace(r[0]) && !IsSpace(r[|r| - 1]))
  {
    TrimEnd(TrimStart(s))
  }

  /** A string that neither starts nor ends with white space is its own trim. */
  lemma TrimOfTrimmed(s: string)
    requires s == "" || (!IsSpace(s[0]) && !IsSpace(s[|s| - 1]))
    ensures Trim(s) == s
  {
  }

  lemma TrimIdempotent(s: string)
    ensures Trim(Trim(s)) == Trim(s)
  {
    TrimOfTrimmed(Trim(s));
  }

  /** Trimming only removes characters: one absent before is absent after. */
  lemma TrimKeepsAbsent(s: string, c: char)
    requires c !in s
    ensures c !in Trim(s)
  {
    var t := TrimStart(s);
    assert t == s[|s| - |t|..];
    assert TrimEnd(t) == t[..|TrimEnd(t)|];
  }

  /** A string is blank (`!s.trim()`) exactly when every character is white space. */
  lemma BlankIffAllSpace(s: string)
    ensures Trim(s) == "" <==> forall i :: 0 <= i < |s| ==> IsSpace(s[i])
  {
    var t := TrimStart(s);
    if t != "" {
      assert !IsSpace(s[|s| - |t|]);
    }
  }

  /** A leading blank is dropped by `trim`. */
  lemma TrimDropsLeadingSpace(c: char, s: string)
    requires IsSpace(c)
    ensures Trim([c] + s) == Trim(s)
  {
    assert ([c] + s)[1..] == s;
  }

  // ----------------------------------------------------------- lower case

  /** `toLowerCase` on one character, for the ASCII letters. */
  function LowerChar(c: char): char {
    if 'A' <= c <= 'Z' then (c as int + 32) as char else c
  }

  function Lower(s: string): (r: string)
    ensures |r| == |s|
    ensures forall i :: 0 <= i < |s| ==> r[i] == LowerChar(s[i])
  {
    seq(|s|, i requires 0 <= i < |s| => LowerChar(s[i]))
  }

  lemma LowerIdempotent(s: string)
    ensures Lower(Lower(s)) == Lower(s)
  {
  }

  // ------------------------------------------------------------- includes

  predicate OccursAt(s: string, t: string, i: int) {
    0 <= i && i + |t| <= |s| && s[i..i + |t|] == t
  }

  /** `s.includes(t)` */
  predicate Contains(s: string, t: string) {
    exists i :: 0 <= i <= |s| - |t| && OccursAt(s, t, i)
  }

  lemma ContainsEmpty(s: string)
    ensures Contains(s, "")
  {
    assert OccursAt(s, "", 0);
  }

  // ----------------------------------------------------------------- join

  /** `xs.join(sep)` */
  function Join(xs: seq<string>, sep: string): (r: string)
    ensures |xs| == 1 ==> r == xs[0]
    ensures |xs| == 0 ==> r == ""
  {
    if |xs| == 0 then ""
    else if |xs| == 1 then xs[0]
    else xs[0] + sep + Join(xs[1..], sep)
  }

  /** Joining two non-empty lists puts exactly one separator between them. */
  lemma {:induction false} JoinAppend(xs: seq<string>, ys: seq<string>, sep: string)
    requires |xs| > 0 && |ys| > 0
    ensures Join(xs + ys, sep) == Join(xs, sep) + sep + Join(ys, sep)
    decreases |xs|
  {
    if |xs| == 1 {
      assert (xs + ys)[1..] == ys;
    } else {
      assert (xs + ys)[1..] == xs[1..] + ys;
      JoinAppend(xs[1..], ys, sep);
    }
  }

  /** Prefixing the first piece prefixes the joined text. */
  lemma JoinPrefixFirst(xs: seq<string>, p: string, sep: string)
    requires |xs| >= 1
    ensures Join([p + xs[0]] + xs[1..], sep) == p + Join(xs, sep)
  {
    var ws := [p + xs[0]] + xs[1..];
    assert ws[1..] == xs[1..];
    if |xs| > 1 {
      assert Join(ws, sep) == (p + xs[0]) + sep + Join(xs[1..], sep);
    }
  }

  // ------------------------------------------------- split on a character

  /** `s.split(sep)` for a one-character separator: the pieces between
      occurrences of `sep`, empty pieces included; `"".split(sep)` is `[""]`. */
  function Split(s: string, sep: char): (r: seq<string>)
    ensures |r| >= 1
    ensures forall k :: 0 <= k < |r| ==> sep !in r[k]
    decreases |s|
  {
    if |s| == 0 then [""]
    else
      var rest := Split(s[1..], sep);
      if s[0] == sep then [""] + rest
      else [[s[0]] + rest[0]] + rest[1..]
  }

  lemma {:induction false} SplitWithoutSep(s: string, sep: char)
    requires sep !in s
    ensures Split(s, sep) == [s]
    decreases |s|
  {
    if |s| > 0 {
      SplitWithoutSep(s[1..], sep);
      assert [s[0]] + s[1..] == s;
    }
  }

  /** The first piece ends at the first separator. */
  lemma {:induction false} SplitAtFirst(a: string, sep: char, b: string)
    requires sep !in a
    ensures Split(a + [sep] + b, sep) == [a] + Split(b, sep)
    decreases |a|
  {
    var s := a + [sep] + b;
    if |a| == 0 {
      assert s[1..] == b;
    } else {
      assert s[1..] == a[1..] + [sep] + b;
      SplitAtFirst(a[1..], sep, b);
      assert [a[0]] + a[1..] == a;
    }
  }

  /** Splitting what was joined with the separator gives back the pieces,
      provided no piece contains the separator. */
  lemma {:induction false} SplitJoin(xs: seq<string>, sep: char)
    requires |xs| >= 1
    requires forall k :: 0 <= k < |xs| ==> sep !in xs[k]
    ensures Split(Join(xs, [sep]), sep) == xs
    decreases |xs|
  {
    if |xs| == 1 {
      SplitWithoutSep(xs[0], sep);
    } else {
      SplitJoin(xs[1..], sep);
      SplitAtFirst(xs[0], sep, Join(xs[1..], [sep]));
      assert xs[0] + [sep] + Join(xs[1..], [sep]) == Join(xs, [sep]);
      assert [xs[0]] + xs[1..] == xs;
    }
  }

  /** Joining the pieces with the separator rebuilds the string. */
  lemma {:induction false} JoinSplit(s: string, sep: char)
    ensures Join(Split(s, sep), [sep]) == s
    decreases |s|
  {
    if |s| > 0 {
      var rest := Split(s[1..], sep);
      JoinSplit(s[1..], sep);
      if s[0] == sep {
        assert Split(s, sep) == [""] + rest;
        if |rest| == 1 {
          assert Join([""] + rest, [sep]) == "" + [sep] + rest[0];
        } else {
          JoinAppend([""], rest, [sep]);
        }
      } else {
        var first := [s[0]] + rest[0];
        if |rest| == 1 {
          assert Split(s, sep) == [first];
        } else {
          assert Split(s, sep) == [first] + rest[1..];
          JoinAppend([first], rest[1..], [sep]);
          JoinAppend([rest[0]], rest[1..], [sep]);
          assert [rest[0]] + rest[1..] == rest;
        }
      }
    }
  }

  // ------------------------------------------------ split on white space

  function SkipSpaces(s: string): (r: string)
    ensures |r| <= |s| && r == s[|s| - |r|..]
    ensures r == "" || !IsSpace(r[0])
    ensures |s| > 0 && IsSpace(s[0]) ==> |r| < |s|
    decreases |s|
  {
    if |s| > 0 && IsSpace(s[0]) then SkipSpaces(s[1..]) else s
  }

  /** `s.split(/\s+/)`: the pieces between maximal runs of white space. A
      leading or trailing run yields an empty piece, and `""` yields `[""]`. */
  function SplitWs(s: string): (r: seq<string>)
    ensures |r| >= 1
    ensures forall k :: 0 <= k < |r| ==> NoSpace(r[k])
    ensures r[0] == "" <==> (|s| == 0 || IsSpace(s[0]))
    decreases |s|
  {
    if |s| == 0 then [""]
    else if IsSpace(s[0]) then [""] + SplitWs(SkipSpaces(s))
    else
      var rest := SplitWs(s[1..]);
      [[s[0]] + rest[0]] + rest[1..]
  }

  lemma {:induction false} SplitWsNoSpace(s: string)
    requires NoSpace(s)
    ensures SplitWs(s) == [s]
    decreases |s|
  {
    if |s| > 0 {
      SplitWsNoSpace(s[1..]);
      assert [s[0]] + s[1..] == s;
    }
  }

  lemma {:induction false} SplitWsAtFirst(a: string, b: string)
    requires a != "" && NoSpace(a) && b != "" && !IsSpace(b[0])
    ensures SplitWs(a + " " + b) == [a] + SplitWs(b)
    decreases |a|
  {
    var s := a + " " + b;
    if |a| == 1 {
      assert s[1..] == " " + b;
      assert SkipSpaces(" " + b) == b by {
        assert (" " + b)[1..] == b;
      }
      var rest := SplitWs(" " + b);
      assert rest == [""] + SplitWs(b);
      assert rest[1..] == SplitWs(b);
      assert [s[0]] + rest[0] == a;
      assert !IsSpace(s[0]);
      assert SplitWs(s) == [[s[0]] + rest[0]] + rest[1..];
    } else {
      assert s[1..] == a[1..] + " " + b;
      SplitWsAtFirst(a[1..], b);
      assert [a[0]] + a[1..] == a;
    }
  }

  /** Splitting words joined by single spaces gives back the words, provided
      each is non-empty and free of white space. */
  lemma {:induction false} SplitWsJoin(ws: seq<string>)
    requires |ws| >= 1
    requires forall k :: 0 <= k < |ws| ==> ws[k] != "" && NoSpace(ws[k])
    ensures SplitWs(Join(ws, " ")) == ws
    decreases |ws|
  {
    if |ws| == 1 {
      SplitWsNoSpace(ws[0]);
    } else {
      SplitWsJoin(ws[1..]);
      var rest := Join(ws[1..], " ");
      assert rest != "" && !IsSpace(rest[0]) by {
        if |ws[1..]| == 1 {
        } else {
          assert rest == ws[1] + " " + Join(ws[2..], " ");
        }
      }
      SplitWsAtFirst(ws[0], rest);
      assert [ws[0]] + ws[1..] == ws;
    }
  }

  // ---------------------------------------------------------------- slice

  /** `xs.slice(0, n)` */
  function Take<T>(xs: seq<T>, n: nat): (r: seq<T>)
    ensures |r| == if n < |xs| then n else |xs|
    ensures r == xs[..|r|]
  {
    if n < |xs| then xs[..n] else xs
  }
}
