/** URL segment joining of the client's base data service
    (Minesweeper/ClientApp/src/app/data.service.ts). */
module Url {
  import opened Wrappers

  datatype UrlError =
    | NoSegments    // `reduce` of an empty array without an initial value throws a TypeError
    | RootSegment   // "Illegal segment, can not start with '/'."

  predicate StartsWithSlash(s: string) {
    |s| > 0 && s[0] == '/'
  }

  predicate EndsWithSlash(s: string) {
    |s| > 0 && s[|s| - 1] == '/'
  }

  /** `s` is a suffix of `u`. */
  predicate EndsWith(u: string, s: string) {
    |s| <= |u| && u[|u| - |s|..] == s
  }

  /** `filter(segment => !!segment)`: the non-empty segments, in order. */
  function NonEmpty(segments: seq<string>): (kept: seq<string>)
    ensures forall i :: 0 <= i < |kept| ==> |kept[i]| > 0
  {
    if |segments| == 0 then []
    else if |segments[0]| == 0 then NonEmpty(segments[1..])
    else [segments[0]] + NonEmpty(segments[1..])
  }

  /** One step of the reducer: a '/' only when the URL so far does not end in one. */
  function Glue(url: string, segment: string): string {
    (if EndsWithSlash(url) then url else url + "/") + segment
  }

  /** The reducer applied left to right to `rest`, starting from `url`. */
  function Reduce(url: string, rest: seq<string>): Result<string, UrlError>
    decreases |rest|
  {
    if |rest| == 0 then Success(url)
    else if StartsWithSlash(rest[0]) then Failure(RootSegment)
    else Reduce(Glue(url, rest[0]), rest[1..])
  }

  /** `DataService.join(...segments)`. */
  function Join(segments: seq<string>): Result<string, UrlError> {
    var kept := NonEmpty(segments);
    if |kept| == 0 then Failure(NoSegments) else Reduce(kept[0], kept[1..])
  }

  /** `buildUrl(...segments)`: the base URL, the collection segment, then the given segments. */
  function BuildUrl(baseUrl: string, collectionSegment: string, segments: seq<string>): Result<string, UrlError> {
    Join([baseUrl, collectionSegment] + segments)
  }

  lemma {:induction false} NonEmptyAppend(a: seq<string>, b: seq<string>)
    ensures NonEmpty(a + b) == NonEmpty(a) + NonEmpty(b)
    decreases |a|
  {
    if |a| > 0 {
      assert (a + b)[1..] == a[1..] + b;
      NonEmptyAppend(a[1..], b);
    } else {
      assert a + b == b;
    }
  }

  /** Empty segments make no difference wherever they stand. */
  lemma DropsEmpty(a: seq<string>, b: seq<string>)
    ensures Join(a + [""] + b) == Join(a + b)
  {
    NonEmptyAppend(a + [""], b);
    NonEmptyAppend(a, [""]);
    NonEmptyAppend(a, b);
    assert NonEmpty([""]) == [];
    assert NonEmpty(a) + [] == NonEmpty(a);
  }

  lemma {:induction false} ReduceFails(url: string, rest: seq<string>)
    ensures Reduce(url, rest).Failure? <==> exists i :: 0 <= i < |rest| && StartsWithSlash(rest[i])
    ensures Reduce(url, rest).Failure? ==> Reduce(url, rest).error == RootSegment
    decreases |rest|
  {
    if |rest| > 0 && !StartsWithSlash(rest[0]) {
      ReduceFails(Glue(url, rest[0]), rest[1..]);
      if exists i :: 0 <= i < |rest| && StartsWithSlash(rest[i]) {
        var i :| 0 <= i < |rest| && StartsWithSlash(rest[i]);
        assert rest[1..][i - 1] == rest[i];
      }
    }
  }

  /** The join fails exactly when no segment is left after filtering, or when a kept
      segment other than the first starts with '/'; the first one is never checked. */
  lemma Fails(segments: seq<string>)
    ensures var kept := NonEmpty(segments);
      && (Join(segments) == Failure(NoSegments) <==> |kept| == 0)
      && (Join(segments) == Failure(RootSegment) <==>
            |kept| > 0 && exists i :: 1 <= i < |kept| && StartsWithSlash(kept[i]))
  {
    var kept := NonEmpty(segments);
    if |kept| > 0 {
      ReduceFails(kept[0], kept[1..]);
      if exists i :: 1 <= i < |kept| && StartsWithSlash(kept[i]) {
        var i :| 1 <= i < |kept| && StartsWithSlash(kept[i]);
        assert kept[1..][i - 1] == kept[i];
      }
      if exists i :: 0 <= i < |kept[1..]| && StartsWithSlash(kept[1..][i]) {
        var i :| 0 <= i < |kept[1..]| && StartsWithSlash(kept[1..][i]);
        assert kept[i + 1] == kept[1..][i];
      }
    }
  }

  /** A single non-empty segment is returned as it is, whatever it starts with. */
  lemma Single(a: seq<string>, s: string, b: seq<string>)
    requires |s| > 0 && NonEmpty(a) == [] && NonEmpty(b) == []
    ensures Join(a + [s] + b) == Success(s)
  {
    NonEmptyAppend(a + [s], b);
    NonEmptyAppend(a, [s]);
    assert NonEmpty([s]) == [s];
  }

  lemma {:induction false} ReduceSnoc(url: string, rest: seq<string>, s: string)
    ensures Reduce(url, rest + [s]) ==
      match Reduce(url, rest)
      case Failure(e) => Failure(e)
      case Success(u) => if StartsWithSlash(s) then Failure(RootSegment) else Success(Glue(u, s))
    decreases |rest|
  {
    if |rest| == 0 {
      assert rest + [s] == [s];
    } else {
      assert (rest + [s])[0] == rest[0];
      assert (rest + [s])[1..] == rest[1..] + [s];
      if !StartsWithSlash(rest[0]) {
        ReduceSnoc(Glue(url, rest[0]), rest[1..], s);
      }
    }
  }

  /** Appending one non-empty segment glues it to the end of the URL built so far with
      exactly one '/' between them, unless the URL already ends in '/'. */
  lemma Append(segments: seq<string>, s: string)
    requires |s| > 0 && |NonEmpty(segments)| > 0
    ensures Join(segments + [s]) ==
      match Join(segments)
      case Failure(e) => Failure(e)
      case Success(u) => if StartsWithSlash(s) then Failure(RootSegment) else Success(Glue(u, s))
  {
    var kept := NonEmpty(segments);
    NonEmptyAppend(segments, [s]);
    assert NonEmpty([s]) == [s];
    assert (kept + [s])[1..] == kept[1..] + [s];
    ReduceSnoc(kept[0], kept[1..], s);
  }

  lemma {:induction false} ReduceEnds(url: string, rest: seq<string>)
    requires Reduce(url, rest).Success?
    ensures url <= Reduce(url, rest).value
    ensures |rest| > 0 ==> EndsWith(Reduce(url, rest).value, rest[|rest| - 1])
    decreases |rest|
  {
    if |rest| > 0 {
      var g := Glue(url, rest[0]);
      ReduceEnds(g, rest[1..]);
      var u := Reduce(url, rest).value;
      assert url <= g;
      if |rest| == 1 {
        assert u == g;
        assert u[|u| - |rest[0]|..] == rest[0];
      }
    }
  }

  /** A joined URL starts with the first kept segment and ends with the last one. */
  lemma StartsAndEnds(segments: seq<string>)
    requires Join(segments).Success?
    ensures var kept := NonEmpty(segments); var u := Join(segments).value;
      kept[0] <= u && EndsWith(u, kept[|kept| - 1])
  {
    var kept := NonEmpty(segments);
    ReduceEnds(kept[0], kept[1..]);
    if |kept| > 1 {
      assert kept[1..][|kept[1..]| - 1] == kept[|kept| - 1];
    }
  }

  /** With no further segments, the collection segment follows the base URL after one '/'
      (none added when the base already ends in '/'). */
  lemma BuildUrlOrder(baseUrl: string, collectionSegment: string)
    requires |baseUrl| > 0 && |collectionSegment| > 0 && !StartsWithSlash(collectionSegment)
    ensures BuildUrl(baseUrl, collectionSegment, []) == Success(Glue(baseUrl, collectionSegment))
  {
    assert [baseUrl, collectionSegment] + [] == [baseUrl] + [collectionSegment];
    Append([baseUrl], collectionSegment);
    Single([], baseUrl, []);
    assert [] + [baseUrl] + [] == [baseUrl];
  }
}
