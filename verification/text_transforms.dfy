/** Comma-separated tags, as the media and blog forms edit them: loaded
    arrays are shown joined with ", " and the text is split back on ','. */
module Tags {
  import opened JsValue
  import Text
  import Sequences

  /** `.map(t => t.trim()).filter(t => t !== "")` */
  function CleanTags(pieces: seq<string>): (r: seq<string>)
    ensures |r| <= |pieces|
    ensures forall k :: 0 <= k < |r| ==> r[k] != ""
    decreases |pieces|
  {
    if |pieces| == 0 then []
    else
      var t := Text.Trim(pieces[0]);
      var rest := CleanTags(pieces[1..]);
      if t == "" then rest else [t] + rest
  }

  /** `tags ? tags.split(",").map(t => t.trim()).filter(t => t !== "") : []` */
  function ParseTags(tags: string): (r: seq<string>)
    ensures forall k :: 0 <= k < |r| ==> r[k] != ""
  {
    if tags == "" then [] else CleanTags(Text.Split(tags, ','))
  }

  /** A tag as it can be saved: non-empty, comma-free and already trimmed. */
  predicate IsCleanTag(t: string) {
    t != "" && ',' !in t && Text.Trim(t) == t
  }

  lemma {:induction false} CleanTagsAreClean(pieces: seq<string>)
    requires forall k :: 0 <= k < |pieces| ==> ',' !in pieces[k]
    ensures forall k :: 0 <= k < |CleanTags(pieces)| ==> IsCleanTag(CleanTags(pieces)[k])
    decreases |pieces|
  {
    if |pieces| > 0 {
      CleanTagsAreClean(pieces[1..]);
      var t := Text.Trim(pieces[0]);
      if t != "" {
        Text.TrimIdempotent(pieces[0]);
        Text.TrimKeepsAbsent(pieces[0], ',');
        assert IsCleanTag(t);
        assert CleanTags(pieces) == [t] + CleanTags(pieces[1..]);
      }
    }
  }

  /** Every parsed tag is non-empty, trimmed and free of commas. */
  lemma ParsedTagsAreClean(tags: string)
    ensures forall k :: 0 <= k < |ParseTags(tags)| ==> IsCleanTag(ParseTags(tags)[k])
  {
    if tags != "" {
      CleanTagsAreClean(Text.Split(tags, ','));
    }
  }

  /** When each piece trims to the matching non-empty tag, cleaning gives the tags. */
  lemma {:induction false} CleanTagsExact(pieces: seq<string>, xs: seq<string>)
    requires |pieces| == |xs|
    requires forall k :: 0 <= k < |xs| ==> xs[k] != "" && Text.Trim(pieces[k]) == xs[k]
    ensures CleanTags(pieces) == xs
    decreases |pieces|
  {
    if |pieces| > 0 {
      CleanTagsExact(pieces[1..], xs[1..]);
      assert [xs[0]] + xs[1..] == xs;
    }
  }

  /** What the loaders put in the text field: an array is joined with ", "
      (`null` elements print as nothing), a string is kept, and anything
      falsy becomes "". */
  function LoadTags(tags: Value): string {
    match tags
    case Arr(items) => JoinText(items, ", ", tags)
    case Str(s) => s
    case _ => ""
  }

  function StrValues(xs: seq<string>): (r: seq<Value>)
    ensures |r| == |xs|
    ensures forall k :: 0 <= k < |xs| ==> r[k] == Str(xs[k])
  {
    seq(|xs|, k requires 0 <= k < |xs| => Str(xs[k]))
  }

  /** Loading saved tags into the text field and saving the form again
      gives back the same tags, in the same order. */
  lemma {:induction false} TagsRoundTrip(xs: seq<string>)
    requires forall k :: 0 <= k < |xs| ==> IsCleanTag(xs[k])
    ensures ParseTags(LoadTags(Arr(StrValues(xs)))) == xs
  {
    var vs := StrValues(xs);
    var texts := seq(|vs|, k requires 0 <= k < |vs| => if vs[k].Null? || vs[k].Undefined? then "" else ToText(vs[k]));
    assert texts == xs;
    assert LoadTags(Arr(vs)) == Text.Join(xs, ", ");
    if |xs| == 0 {
    } else {
      ParseJoined(xs);
    }
  }

  /** `Join(xs, ", ")` is `Join(ys, ",")` where every tag after the first
      carries one leading space. */
  function Spaced(xs: seq<string>): (ys: seq<string>)
    requires |xs| >= 1
    ensures |ys| == |xs| && ys[0] == xs[0]
    ensures forall k :: 1 <= k < |xs| ==> ys[k] == " " + xs[k]
  {
    [xs[0]] + seq(|xs| - 1, k requires 0 <= k < |xs| - 1 => " " + xs[k + 1])
  }

  lemma {:induction false} JoinSpaced(xs: seq<string>)
    requires |xs| >= 1
    ensures Text.Join(xs, ", ") == Text.Join(Spaced(xs), ",")
    decreases |xs|
  {
    if |xs| > 1 {
      var ys := Spaced(xs);
      var zs := Spaced(xs[1..]);
      var rest := Text.Join(xs[1..], ", ");
      JoinSpaced(xs[1..]);
      assert ys[1..] == [" " + zs[0]] + zs[1..];
      Text.JoinPrefixFirst(zs, " ", ",");
      assert Text.Join(ys, ",") == ys[0] + "," + Text.Join(ys[1..], ",");
      assert xs[0] + ", " + rest == xs[0] + "," + (" " + rest);
    }
  }

  /** The spaced pieces of clean tags hold no comma. */
  lemma SpacedHasNoComma(xs: seq<string>)
    requires |xs| >= 1
    requires forall k :: 0 <= k < |xs| ==> IsCleanTag(xs[k])
    ensures forall k :: 0 <= k < |Spaced(xs)| ==> ',' !in Spaced(xs)[k]
  {
    var ys := Spaced(xs);
    forall k | 0 <= k < |ys|
      ensures ',' !in ys[k]
    {
      if k > 0 {
        assert ys[k] == " " + xs[k];
      }
    }
  }

  /** Each spaced piece of a clean tag trims back to the tag. */
  lemma SpacedTrims(xs: seq<string>)
    requires |xs| >= 1
    requires forall k :: 0 <= k < |xs| ==> IsCleanTag(xs[k])
    ensures forall k :: 0 <= k < |xs| ==> Text.Trim(Spaced(xs)[k]) == xs[k]
  {
    var ys := Spaced(xs);
    forall k | 0 <= k < |ys|
      ensures Text.Trim(ys[k]) == xs[k]
    {
      if k > 0 {
        Text.TrimDropsLeadingSpace(' ', xs[k]);
        assert ys[k] == [' '] + xs[k];
      }
    }
  }

  lemma ParseJoined(xs: seq<string>)
    requires |xs| >= 1
    requires forall k :: 0 <= k < |xs| ==> IsCleanTag(xs[k])
    ensures ParseTags(Text.Join(xs, ", ")) == xs
  {
    var ys := Spaced(xs);
    JoinSpaced(xs);
    SpacedHasNoComma(xs);
    Text.SplitJoin(ys, ',');
    assert Text.Join(xs, ", ") != "" by {
      if |xs| > 1 {
        assert Text.Join(xs, ", ") == xs[0] + ", " + Text.Join(xs[1..], ", ");
      }
    }
    SpacedTrims(xs);
    CleanTagsExact(ys, xs);
  }

  /** An empty tags field saves no tags. */
  lemma EmptyTagsSaveNothing()
    ensures ParseTags("") == []
  {
  }
}

/** The category slug: lower-case the name, turn each run of white space
    into one '-', then drop every character outside a-z, 0-9 and '-'. */
module Slug {
  import Text
  import Sequences

  predicate IsSlugChar(c: char) {
    ('a' <= c <= 'z') || ('0' <= c <= '9') || c == '-'
  }

  predicate IsSlug(s: string) {
    forall i :: 0 <= i < |s| ==> IsSlugChar(s[i])
  }

  /** `replace(/\s+/g, '-')` */
  function DashSpaces(s: string): (r: string)
    decreases |s|
  {
    if |s| == 0 then ""
    else if Text.IsSpace(s[0]) then "-" + DashSpaces(Text.SkipSpaces(s))
    else [s[0]] + DashSpaces(s[1..])
  }

  /** `replace(/[^a-z0-9-]/g, '')` */
  function KeepSlugChars(s: string): (r: string)
    ensures IsSlug(r)
  {
    Sequences.Keep(s, IsSlugChar)
  }

  /** `value.toLowerCase().replace(/\s+/g, '-').replace(/[^a-z0-9-]/g, '')` */
  function MakeSlug(name: string): (r: string)
    ensures IsSlug(r)
  {
    KeepSlugChars(DashSpaces(Text.Lower(name)))
  }

  lemma {:induction false} DashSpacesNoSpace(s: string)
    requires Text.NoSpace(s)
    ensures DashSpaces(s) == s
    decreases |s|
  {
    if |s| > 0 {
      DashSpacesNoSpace(s[1..]);
      assert [s[0]] + s[1..] == s;
    }
  }

  /** A slug is its own slug: editing nothing in a slugged name changes nothing. */
  lemma SlugIdempotent(name: string)
    ensures MakeSlug(MakeSlug(name)) == MakeSlug(name)
  {
    var s := MakeSlug(name);
    assert Text.Lower(s) == s;
    assert Text.NoSpace(s) by {
      forall i | 0 <= i < |s|
        ensures !Text.IsSpace(s[i])
      {
        assert IsSlugChar(s[i]);
      }
    }
    DashSpacesNoSpace(s);
    Sequences.KeepAll(s, IsSlugChar);
  }

  predicate IsAsciiAlnum(c: char) {
    ('a' <= c <= 'z') || ('A' <= c <= 'Z') || ('0' <= c <= '9')
  }

  /** Upper-case ASCII letters are lowered, not dropped. */
  lemma SlugOfAlnum(name: string)
    requires forall i :: 0 <= i < |name| ==> IsAsciiAlnum(name[i])
    ensures MakeSlug(name) == Text.Lower(name)
  {
    var low := Text.Lower(name);
    assert forall i :: 0 <= i < |low| ==> IsSlugChar(low[i]) && !Text.IsSpace(low[i]);
    DashSpacesNoSpace(low);
    Sequences.KeepAll(low, IsSlugChar);
  }

  /** A prefix without white space is copied through unchanged. */
  lemma {:induction false} DashSpacesPrefix(a: string, t: string)
    requires Text.NoSpace(a)
    ensures DashSpaces(a + t) == a + DashSpaces(t)
    decreases |a|
  {
    if |a| > 0 {
      NoSpaceTail(a);
      DashSpacesPrefix(a[1..], t);
      ConsAppend(a, t);
      DashSpacesAtChar(a[0], a[1..] + t);
      ConsAppend(a, DashSpaces(t));
    } else {
      assert a + t == t && a + DashSpaces(t) == DashSpaces(t);
    }
  }

  lemma ConsAppend(a: string, t: string)
    requires |a| > 0
    ensures a + t == [a[0]] + (a[1..] + t)
  {
    assert [a[0]] + a[1..] == a;
  }

  /** A run of white space after a word becomes exactly one '-'. */
  lemma DashSpacesRun(a: string, w: string, b: string)
    requires Text.NoSpace(a) && w != "" && (forall i :: 0 <= i < |w| ==> Text.IsSpace(w[i]))
    requires b == "" || !Text.IsSpace(b[0])
    ensures DashSpaces(a + w + b) == a + "-" + DashSpaces(b)
  {
    assert a + w + b == a + (w + b);
    DashSpacesPrefix(a, w + b);
    SkipRun(w, b);
    DashSpacesAtSpace(w + b);
  }

  lemma DashSpacesAtSpace(s: string)
    requires |s| > 0 && Text.IsSpace(s[0])
    ensures DashSpaces(s) == "-" + DashSpaces(Text.SkipSpaces(s))
  {
  }

  lemma DashSpacesAtChar(c: char, t: string)
    requires !Text.IsSpace(c)
    ensures DashSpaces([c] + t) == [c] + DashSpaces(t)
  {
    assert ([c] + t)[1..] == t;
  }

  lemma NoSpaceTail(a: string)
    requires |a| > 0 && Text.NoSpace(a)
    ensures Text.NoSpace(a[1..])
  {
    forall i | 0 <= i < |a| - 1
      ensures !Text.IsSpace(a[1..][i])
    {
      assert a[1..][i] == a[i + 1];
    }
  }

  lemma {:induction false} SkipRun(w: string, b: string)
    requires forall i :: 0 <= i < |w| ==> Text.IsSpace(w[i])
    requires b == "" || !Text.IsSpace(b[0])
    ensures Text.SkipSpaces(w + b) == b
    decreases |w|
  {
    if |w| > 0 {
      assert (w + b)[1..] == w[1..] + b;
      SkipRun(w[1..], b);
    } else {
      assert w + b == b;
    }
  }

  predicate IsAlnumWord(w: string) {
    forall i :: 0 <= i < |w| ==> IsAsciiAlnum(w[i])
  }

  /** Symbols are removed only after the spaces have become dashes, so the
      dashes around a removed symbol stay: "Rings & Bands" gives
      "rings--bands". */
  lemma SymbolBetweenWords(a: string, b: string)
    requires IsAlnumWord(a) && IsAlnumWord(b)
    ensures MakeSlug(a + " & " + b) == Text.Lower(a) + "--" + Text.Lower(b)
  {
    var la, lb := Text.Lower(a), Text.Lower(b);
    LowerAlnum(a);
    LowerAlnum(b);
    LowerOfSpacedAmp(a, b);
    DashAroundAmp(la, lb);
    KeepAroundAmp(la, lb);
    assert la + "-" + ("&" + "-" + lb) == (la + "-") + ("&" + ("-" + lb));
    assert (la + "-") + ("-" + lb) == la + "--" + lb;
  }

  lemma LowerAlnum(w: string)
    requires IsAlnumWord(w)
    ensures Text.NoSpace(Text.Lower(w)) && IsSlug(Text.Lower(w))
  {
    forall i | 0 <= i < |w|
      ensures IsSlugChar(Text.Lower(w)[i]) && !Text.IsSpace(Text.Lower(w)[i])
    {
      assert IsAsciiAlnum(w[i]);
    }
  }

  lemma LowerOfSpacedAmp(a: string, b: string)
    ensures Text.Lower(a + " & " + b) == Text.Lower(a) + " " + ("&" + " " + Text.Lower(b))
  {
    var s := a + " & " + b;
    var r := Text.Lower(a) + " " + ("&" + " " + Text.Lower(b));
    assert |Text.Lower(s)| == |r|;
    forall i | 0 <= i < |s|
      ensures Text.Lower(s)[i] == r[i]
    {
      if i < |a| {
      } else if i < |a| + 3 {
      } else {
        assert s[i] == b[i - |a| - 3];
      }
    }
  }

  lemma DashAroundAmp(la: string, lb: string)
    requires Text.NoSpace(la) && Text.NoSpace(lb)
    ensures DashSpaces(la + " " + ("&" + " " + lb)) == la + "-" + ("&" + "-" + lb)
  {
    var sp: string := " ";
    var amp: string := "&";
    DashSpacesNoSpace(lb);
    DashSpacesRun(amp, sp, lb);
    DashSpacesRun(la, sp, amp + sp + lb);
  }

  lemma KeepAroundAmp(la: string, lb: string)
    requires IsSlug(la) && IsSlug(lb)
    ensures KeepSlugChars((la + "-") + ("&" + ("-" + lb))) == (la + "-") + ("-" + lb)
  {
    var left: string := la + "-";
    var right: string := "-" + lb;
    var amp: string := "&";
    Sequences.KeepAll(left, IsSlugChar);
    Sequences.KeepAll(right, IsSlugChar);
    Sequences.KeepNone(amp, IsSlugChar);
    Sequences.KeepAppend(amp, right, IsSlugChar);
    Sequences.KeepAppend(left, amp + right, IsSlugChar);
  }
}

/** The blog page's read-time estimate and response unwrapping. */
module BlogText {
  import opened Common
  import opened JsValue
  import Text

  /** `content.replace(/<[^>]*>/g, '')`: every '<' that has a '>' somewhere
      after it is removed together with everything up to that first '>'; a
      '<' with no '>' after it stays. */
  function StripTags(s: string): (r: string)
    ensures |r| <= |s|
    ensures forall i :: 0 <= i < |r| ==> r[i] in s
    decreases |s|
  {
    if |s| == 0 then ""
    else if s[0] == '<' && '>' in s[1..] then
      var rest := AfterFirst(s[1..], '>');
      StripTags(rest)
    else [s[0]] + StripTags(s[1..])
  }

  /** The text after the first occurrence of `c`. */
  function AfterFirst(s: string, c: char): (r: string)
    requires c in s
    ensures |r| < |s| && r == s[|s| - |r|..]
    ensures c !in s[..|s| - |r| - 1] && s[|s| - |r| - 1] == c
    decreases |s|
  {
    if s[0] == c then s[1..] else AfterFirst(s[1..], c)
  }

  /** No '<' is followed, anywhere later, by a '>': nothing left that the
      pattern would match. */
  predicate NoTag(s: string) {
    forall i, j :: 0 <= i < j < |s| && s[i] == '<' ==> s[j] != '>'
  }

  lemma {:induction false} StripTagsLeavesNoTag(s: string)
    ensures NoTag(StripTags(s))
    decreases |s|
  {
    if |s| > 0 {
      if s[0] == '<' && '>' in s[1..] {
        StripTagsLeavesNoTag(AfterFirst(s[1..], '>'));
      } else {
        StripTagsLeavesNoTag(s[1..]);
        var rest := StripTags(s[1..]);
        if s[0] == '<' {
          assert forall j :: 0 <= j < |rest| ==> rest[j] != '>';
        }
        var r := [s[0]] + rest;
        forall i, j | 0 <= i < j < |r| && r[i] == '<'
          ensures r[j] != '>'
        {
          assert r[j] == rest[j - 1];
          if i > 0 {
            assert r[i] == rest[i - 1];
          }
        }
      }
    }
  }

  lemma {:induction false} StripTagsKeepsTagFree(s: string)
    requires NoTag(s)
    ensures StripTags(s) == s
    decreases |s|
  {
    if |s| > 0 {
      if s[0] == '<' {
        assert forall j :: 1 <= j < |s| ==> s[j] != '>';
        assert '>' !in s[1..];
      }
      assert NoTag(s[1..]);
      StripTagsKeepsTagFree(s[1..]);
      assert [s[0]] + s[1..] == s;
    }
  }

  /** Stripping twice is stripping once. */
  lemma StripTagsIdempotent(s: string)
    ensures StripTags(StripTags(s)) == StripTags(s)
  {
    StripTagsLeavesNoTag(s);
    StripTagsKeepsTagFree(StripTags(s));
  }

  const WordsPerMinute: nat := 200

  /** `textContent.split(/\s+/).length` */
  function WordCount(content: string): (n: nat)
    ensures n >= 1
  {
    |Text.SplitWs(StripTags(content))|
  }

  /** `calculateReadTime`: minutes, rounded up. */
  function ReadTime(content: string): (minutes: nat)
    ensures minutes >= 1
    ensures minutes * WordsPerMinute >= WordCount(content)
    ensures (minutes - 1) * WordsPerMinute < WordCount(content)
  {
    CeilDiv(WordCount(content), WordsPerMinute)
  }

  /** More words never means a shorter estimate, and up to 200 pieces read in
      one minute. */
  lemma ReadTimeMonotone(a: string, b: string)
    requires WordCount(a) <= WordCount(b)
    ensures ReadTime(a) <= ReadTime(b)
  {
    CeilDivMonotone(WordCount(a), WordCount(b), WordsPerMinute);
  }

  lemma ShortPostsTakeOneMinute(content: string)
    requires WordCount(content) <= WordsPerMinute
    ensures ReadTime(content) == 1
  {
    CeilDivOne(WordCount(content), WordsPerMinute);
  }

  /** An empty post still counts one piece and one minute. */
  lemma EmptyPostReadTime()
    ensures WordCount("") == 1 && ReadTime("") == 1
  {
    CeilDivOne(1, WordsPerMinute);
  }

  /** Plain words separated by single spaces count one piece each. */
  lemma WordsCountOnce(ws: seq<string>)
    requires |ws| >= 1
    requires forall k :: 0 <= k < |ws| ==> ws[k] != "" && Text.NoSpace(ws[k]) && '<' !in ws[k]
    ensures WordCount(Text.Join(ws, " ")) == |ws|
  {
    var s := Text.Join(ws, " ");
    NoAngleInJoin(ws);
    StripTagsKeepsTagFree(s);
    Text.SplitWsJoin(ws);
  }

  lemma {:induction false} NoAngleInJoin(ws: seq<string>)
    requires forall k :: 0 <= k < |ws| ==> '<' !in ws[k]
    ensures '<' !in Text.Join(ws, " ")
    ensures NoTag(Text.Join(ws, " "))
    decreases |ws|
  {
    if |ws| > 1 {
      NoAngleInJoin(ws[1..]);
    }
  }

  /** `response.data ? (response.data.blog || response.data) : response` */
  function ShownBlog(response: Value): (blog: Value)
    ensures Truthy(Field(response, "data")) && Truthy(Field(Field(response, "data"), "blog")) ==>
              blog == Field(Field(response, "data"), "blog")
    ensures Truthy(Field(response, "data")) && !Truthy(Field(Field(response, "data"), "blog")) ==>
              blog == Field(response, "data")
    ensures !Truthy(Field(response, "data")) ==> blog == response
  {
    var data := Field(response, "data");
    if Truthy(data) then Or(Field(data, "blog"), data) else response
  }

  /** The three response shapes the page accepts, `{ data: { blog: b } }`,
      `{ data: b }` and `b` itself, all show `b`, for a truthy `b` without
      truthy `data` or `blog` keys of its own. */
  lemma ShownBlogShapes(b: Value)
    requires Truthy(b) && !Truthy(Field(b, "data")) && !Truthy(Field(b, "blog"))
    ensures ShownBlog(Obj(map["data" := Obj(map["blog" := b])])) == b
    ensures ShownBlog(Obj(map["data" := b])) == b
    ensures ShownBlog(b) == b
  {
  }
}

/** The short previews the list pages render. */
module Previews {
  import Text

  const SubtitleWords: nat := 18

  /** `subtitle.trim().split(/\s+/).slice(0, 18).join(" ")` */
  function SubtitlePreview(subtitle: string): string {
    Text.Join(Text.Take(Text.SplitWs(Text.Trim(subtitle)), SubtitleWords), " ")
  }

  /** For a subtitle written as words separated by single spaces, the preview
      is its first 18 words, re-joined with single spaces. */
  lemma SubtitlePreviewOfWords(ws: seq<string>)
    requires |ws| >= 1
    requires forall k :: 0 <= k < |ws| ==> ws[k] != "" && Text.NoSpace(ws[k])
    ensures SubtitlePreview(Text.Join(ws, " ")) == Text.Join(Text.Take(ws, SubtitleWords), " ")
  {
    var s := Text.Join(ws, " ");
    JoinEnds(ws);
    Text.TrimOfTrimmed(s);
    Text.SplitWsJoin(ws);
  }

  lemma {:induction false} JoinEnds(ws: seq<string>)
    requires |ws| >= 1
    requires forall k :: 0 <= k < |ws| ==> ws[k] != "" && Text.NoSpace(ws[k])
    ensures var s := Text.Join(ws, " ");
            s != "" && !Text.IsSpace(s[0]) && !Text.IsSpace(s[|s| - 1])
    decreases |ws|
  {
    if |ws| > 1 {
      JoinEnds(ws[1..]);
      var s := Text.Join(ws, " ");
      assert s == ws[0] + " " + Text.Join(ws[1..], " ");
      assert s[0] == ws[0][0];
    }
  }

  /** A short subtitle is shown whole. */
  lemma ShortSubtitleShownWhole(ws: seq<string>)
    requires 1 <= |ws| <= SubtitleWords
    requires forall k :: 0 <= k < |ws| ==> ws[k] != "" && Text.NoSpace(ws[k])
    ensures SubtitlePreview(Text.Join(ws, " ")) == Text.Join(ws, " ")
  {
    SubtitlePreviewOfWords(ws);
  }

  const DescriptionChars: nat := 50

  /** `description.substring(0, 50)` followed by '...' when it was longer. */
  function DescriptionPreview(description: string): (r: string)
    ensures |description| <= DescriptionChars ==> r == description
    ensures |description| > DescriptionChars ==>
              |r| == DescriptionChars + 3 && r[..DescriptionChars] == description[..DescriptionChars]
              && r[DescriptionChars..] == "..."
  {
    Text.Take(description, DescriptionChars) + (if |description| > DescriptionChars then "..." else "")
  }

  /** The options column: up to four option values joined by ", ", or "N/A"
      for a variation without options. */
  function OptionsSummary(values: seq<string>): (r: string)
    ensures |values| == 0 ==> r == "N/A"
    ensures 0 < |values| <= 4 ==> r == Text.Join(values, ", ")
    ensures |values| > 4 ==> r == Text.Join(values[..4], ", ")
  {
    if |values| > 0 then Text.Join(Text.Take(values, 4), ", ") else "N/A"
  }
}
