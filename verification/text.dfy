/** `string.Join` and `string.Split` (with StringSplitOptions.None) over a
    non-empty separator, as the converters use them. */
module Text {

  /** The line separator `AppendLine` writes and the grid parser splits on. */
  const CrLf: string := "\r\n"

  /** `string.Join(sep, parts)`: the parts in order, with `sep` only between two of them. */
  function Join(parts: seq<string>, sep: string): string
  {
    if |parts| == 0 then ""
    else if |parts| == 1 then parts[0]
    else parts[0] + sep + Join(parts[1..], sep)
  }

  /** `s.Split(sep)`: cuts `s` at every occurrence of `sep`, scanning left to right. */
  function Split(s: string, sep: string): (parts: seq<string>)
    requires |sep| > 0
    ensures |parts| >= 1
  {
    SplitFrom(s, sep, "")
  }

  /** Splitting the rest `s` of a string whose current, unfinished part is `cur`. */
  function SplitFrom(s: string, sep: string, cur: string): (parts: seq<string>)
    requires |sep| > 0
    ensures |parts| >= 1
    decreases |s|
  {
    if |s| == 0 then [cur]
    else if sep <= s then [cur] + SplitFrom(s[|sep|..], sep, "")
    else SplitFrom(s[1..], sep, cur + [s[0]])
  }

  /** The part contains no character that could start the separator. */
  predicate FreeOf(part: string, sep: string)
    requires |sep| > 0
  {
    forall i :: 0 <= i < |part| ==> part[i] != sep[0]
  }

  /** Text without the separator's first character is copied into the current part. */
  lemma {:induction false} SplitFromPlain(part: string, rest: string, sep: string, cur: string)
    requires |sep| > 0 && FreeOf(part, sep)
    ensures SplitFrom(part + rest, sep, cur) == SplitFrom(rest, sep, cur + part)
    decreases |part|
  {
    if |part| > 0 {
      var s := part + rest;
      assert s[0] == part[0] != sep[0];
      assert !(sep <= s);
      assert s[1..] == part[1..] + rest;
      SplitFromPlain(part[1..], rest, sep, cur + [part[0]]);
      assert cur + [part[0]] + part[1..] == cur + part;
    } else {
      assert part + rest == rest;
      assert cur + part == cur;
    }
  }

  lemma {:induction false} SplitFromJoin(parts: seq<string>, sep: string)
    requires |sep| > 0 && |parts| >= 1
    requires forall i :: 0 <= i < |parts| ==> FreeOf(parts[i], sep)
    ensures SplitFrom(Join(parts, sep), sep, "") == parts
    decreases |parts|
  {
    if |parts| == 1 {
      SplitFromPlain(parts[0], "", sep, "");
      assert parts[0] + "" == parts[0];
      assert "" + parts[0] == parts[0];
    } else {
      var tail := Join(parts[1..], sep);
      assert Join(parts, sep) == parts[0] + (sep + tail);
      SplitFromPlain(parts[0], sep + tail, sep, "");
      assert "" + parts[0] == parts[0];
      var s := sep + tail;
      assert sep <= s && |s| > 0;
      assert s[|sep|..] == tail;
      SplitFromJoin(parts[1..], sep);
      assert [parts[0]] + parts[1..] == parts;
    }
  }

  /** Splitting a join gives the parts back when no part holds the separator's first character. */
  lemma SplitJoin(parts: seq<string>, sep: string)
    requires |sep| > 0 && |parts| >= 1
    requires forall i :: 0 <= i < |parts| ==> FreeOf(parts[i], sep)
    ensures Split(Join(parts, sep), sep) == parts
  {
    SplitFromJoin(parts, sep);
  }

  /** Putting one part in front adds that part and the separator at the start. */
  lemma JoinCons(first: string, parts: seq<string>, sep: string)
    requires |parts| >= 1
    ensures Join([first] + parts, sep) == first + sep + Join(parts, sep)
  {
    assert ([first] + parts)[1..] == parts;
  }

  lemma {:induction false} JoinSplitFrom(s: string, sep: string, cur: string)
    requires |sep| > 0
    ensures Join(SplitFrom(s, sep, cur), sep) == cur + s
    decreases |s|
  {
    if |s| == 0 {
      assert cur + s == cur;
    } else if sep <= s {
      JoinSplitFrom(s[|sep|..], sep, "");
      JoinSplitAtSeparator(s, sep, cur);
    } else {
      JoinSplitFrom(s[1..], sep, cur + [s[0]]);
      JoinSplitPlain(s, sep, cur);
    }
  }

  /** The step of JoinSplitFrom where the text starts with the separator. */
  lemma JoinSplitAtSeparator(s: string, sep: string, cur: string)
    requires |sep| > 0 && |s| > 0 && sep <= s
    requires Join(SplitFrom(s[|sep|..], sep, ""), sep) == "" + s[|sep|..]
    ensures Join(SplitFrom(s, sep, cur), sep) == cur + s
  {
    var tail := s[|sep|..];
    var rest := SplitFrom(tail, sep, "");
    assert SplitFrom(s, sep, cur) == [cur] + rest;
    EmptyFront(tail);
    JoinCons(cur, rest, sep);
    SkipSeparator(cur, s, sep);
  }

  lemma EmptyFront(s: string)
    ensures "" + s == s
  {
  }

  /** A text that starts with the separator is the separator followed by the rest. */
  lemma SkipSeparator(cur: string, s: string, sep: string)
    requires sep <= s
    ensures cur + sep + s[|sep|..] == cur + s
  {
    assert s == sep + s[|sep|..];
  }

  /** The step of JoinSplitFrom where the text starts with an ordinary character. */
  lemma JoinSplitPlain(s: string, sep: string, cur: string)
    requires |sep| > 0 && |s| > 0 && !(sep <= s)
    requires Join(SplitFrom(s[1..], sep, cur + [s[0]]), sep) == cur + [s[0]] + s[1..]
    ensures Join(SplitFrom(s, sep, cur), sep) == cur + s
  {
    assert SplitFrom(s, sep, cur) == SplitFrom(s[1..], sep, cur + [s[0]]);
    MoveFirst(cur, s);
  }

  /** Moving the first character of a text to the end of what precedes it. */
  lemma MoveFirst(cur: string, s: string)
    requires |s| > 0
    ensures cur + [s[0]] + s[1..] == cur + s
  {
    assert s == [s[0]] + s[1..];
  }

  /** Joining the parts of a split gives the original text back, for every text. */
  lemma JoinSplit(s: string, sep: string)
    requires |sep| > 0
    ensures Join(Split(s, sep), sep) == s
  {
    JoinSplitFrom(s, sep, "");
  }

  /** Appending one part adds the separator and that part at the end. */
  lemma {:induction false} JoinSnoc(parts: seq<string>, last: string, sep: string)
    requires |parts| >= 1
    ensures Join(parts + [last], sep) == Join(parts, sep) + sep + last
    decreases |parts|
  {
    if |parts| == 1 {
      assert parts + [last] == [parts[0], last];
      assert [parts[0], last][1..] == [last];
    } else {
      assert (parts + [last])[1..] == parts[1..] + [last];
      JoinSnoc(parts[1..], last, sep);
    }
  }

  /** What a writer that puts the separator after every part but the last has written
      once the first `n` parts are out. */
  function JoinedPrefix(parts: seq<string>, n: nat, sep: string): string
    requires n <= |parts|
  {
    if n == 0 then "" else Join(parts[..n], sep) + (if n < |parts| then sep else "")
  }

  /** Writing one more part, then the separator unless it was the last. */
  lemma JoinedPrefixStep(parts: seq<string>, n: nat, sep: string)
    requires n < |parts|
    ensures JoinedPrefix(parts, n + 1, sep) ==
      JoinedPrefix(parts, n, sep) + parts[n] + (if n + 1 < |parts| then sep else "")
  {
    if n > 0 {
      JoinSnoc(parts[..n], parts[n], sep);
      assert parts[..n + 1] == parts[..n] + [parts[n]];
    } else {
      assert parts[..1] == [parts[0]];
    }
  }

  /** After part n is out, the writer adds the separator unless that part was the last. */
  lemma JoinedPrefixNext(parts: seq<string>, n: nat, sep: string, written: string)
    requires n < |parts| && written == JoinedPrefix(parts, n, sep) + parts[n]
    ensures n + 1 < |parts| ==> written + sep == JoinedPrefix(parts, n + 1, sep)
    ensures n + 1 == |parts| ==> written == JoinedPrefix(parts, n + 1, sep)
  {
    JoinedPrefixStep(parts, n, sep);
    assert written + "" == written;
  }

  /** Once every part is out, the writer has written the join. */
  lemma JoinedPrefixAll(parts: seq<string>, sep: string)
    ensures JoinedPrefix(parts, |parts|, sep) == Join(parts, sep)
  {
    assert parts[..|parts|] == parts;
  }

  /** Joining parts that all have length `w` gives w per part plus the separators between them. */
  lemma {:induction false} JoinUniformLength(parts: seq<string>, sep: string, w: nat)
    requires |parts| >= 1
    requires forall i :: 0 <= i < |parts| ==> |parts[i]| == w
    ensures |Join(parts, sep)| == w * |parts| + |sep| * (|parts| - 1)
    decreases |parts|
  {
    if |parts| > 1 {
      JoinUniformLength(parts[1..], sep, w);
    }
  }
}
