/**
 * The CORS settings: the allowed origins are the frontend domain, when one
 * is set, followed by the trimmed comma-separated entries of the extra
 * origins setting, with repeats dropped (first occurrence kept); methods and
 * credentials are fixed.
 */
module CorsOption {
  import opened Wrappers
  import opened Js
  import opened Strings

  const METHODS: string := "GET,HEAD,PUT,PATCH,POST,DELETE,OPTIONS"

  /** Each piece trimmed, in order: `pieces.map((i) => i.trim())`. */
  function TrimAll(pieces: seq<string>): (r: seq<string>)
    ensures |r| == |pieces| && forall k :: 0 <= k < |r| ==> r[k] == Trim(pieces[k])
  {
    if pieces == [] then [] else TrimAll(pieces[..|pieces| - 1]) + [Trim(pieces[|pieces| - 1])]
  }

  /** The origins collected before de-duplication, in push order. */
  function Collected(frontendDomain: Option<string>, allowedOrigins: Option<string>): (r: seq<string>)
    ensures |r| == (if Present(frontendDomain) then 1 else 0)
      + (if Present(allowedOrigins) then |Split(allowedOrigins.value, ',')| else 0)
    ensures Present(frontendDomain) ==> r[0] == frontendDomain.value
    ensures !Present(frontendDomain) && !Present(allowedOrigins) ==> r == []
  {
    (if Present(frontendDomain) then [frontendDomain.value] else [])
    + (if Present(allowedOrigins) then TrimAll(Split(allowedOrigins.value, ',')) else [])
  }

  /**
   * `[...new Set(xs)]`: the elements of `xs` without repeats, each where it
   * first occurs.
   */
  function Dedup(xs: seq<string>): (r: seq<string>)
    ensures forall x :: x in r <==> x in xs
    ensures forall i, j :: 0 <= i < j < |r| ==> r[i] != r[j]
  {
    if xs == [] then []
    else
      var d := Dedup(xs[..|xs| - 1]);
      var x := xs[|xs| - 1];
      assert forall y :: y in xs <==> y in xs[..|xs| - 1] || y == x;
      if x in d then d else d + [x]
  }

  /** The index where `x` first occurs in `xs`. */
  function FirstIndex(xs: seq<string>, x: string): (k: nat)
    requires x in xs
    ensures k < |xs| && xs[k] == x && x !in xs[..k]
  {
    if xs[0] == x then 0
    else
      var k := FirstIndex(xs[1..], x) + 1;
      assert xs[..k] == [xs[0]] + xs[1..][..k - 1];
      k
  }

  /** `x` first occurs no later than any index holding it. */
  lemma {:induction false} FirstIndexAtMost(xs: seq<string>, x: string, i: nat)
    requires i < |xs| && xs[i] == x
    ensures FirstIndex(xs, x) <= i
  {
    if xs[0] != x {
      FirstIndexAtMost(xs[1..], x, i - 1);
    }
  }

  /** `x` first occurs no earlier than the end of a prefix without it. */
  lemma {:induction false} FirstIndexAtLeast(xs: seq<string>, x: string, n: nat)
    requires x in xs && n <= |xs| && x !in xs[..n]
    ensures FirstIndex(xs, x) >= n
  {
    if n > 0 {
      assert xs[..n][0] == xs[0];
      assert xs[1..][..n - 1] == xs[..n][1..];
      FirstIndexAtLeast(xs[1..], x, n - 1);
    }
  }

  /** Where `x` first occurs in `xs` does not change when more follows. */
  lemma FirstIndexPrefix(xs: seq<string>, x: string, n: nat)
    requires n <= |xs| && x in xs[..n]
    ensures FirstIndex(xs, x) == FirstIndex(xs[..n], x)
  {
    var k, m := FirstIndex(xs, x), FirstIndex(xs[..n], x);
    assert xs[..n][m] == xs[m];
    FirstIndexAtMost(xs, x, m);
    assert xs[..n][k] == xs[k];
    FirstIndexAtMost(xs[..n], x, k);
  }

  /** The de-duplicated list keeps first-occurrence order. */
  lemma {:induction false} DedupKeepsFirstOccurrenceOrder(xs: seq<string>)
    ensures forall i, j :: 0 <= i < j < |Dedup(xs)| ==> FirstIndex(xs, Dedup(xs)[i]) < FirstIndex(xs, Dedup(xs)[j])
    decreases |xs|
  {
    if xs != [] {
      var n := |xs| - 1;
      var pre, x := xs[..n], xs[n];
      var d := Dedup(pre);
      DedupKeepsFirstOccurrenceOrder(pre);
      forall y | y in d
        ensures FirstIndex(xs, y) == FirstIndex(pre, y) < n
      {
        FirstIndexPrefix(xs, y, n);
      }
      if x !in d {
        FirstIndexAtMost(xs, x, n);
        FirstIndexAtLeast(xs, x, n);
      }
    }
  }

  /** A list without repeats is its own de-duplication. */
  lemma {:induction false} DedupOfDistinct(xs: seq<string>)
    requires forall i, j :: 0 <= i < j < |xs| ==> xs[i] != xs[j]
    ensures Dedup(xs) == xs
    decreases |xs|
  {
    if xs != [] {
      var n := |xs| - 1;
      DedupOfDistinct(xs[..n]);
      assert xs[n] !in xs[..n];
      assert xs[..n] + [xs[n]] == xs;
    }
  }

  /** De-duplicating twice is de-duplicating once. */
  lemma DedupIdempotent(xs: seq<string>)
    ensures Dedup(Dedup(xs)) == Dedup(xs)
  {
    DedupOfDistinct(Dedup(xs));
  }

  lemma TrimAllSnoc(pieces: seq<string>, i: nat)
    requires i < |pieces|
    ensures TrimAll(pieces[..i + 1]) == TrimAll(pieces[..i]) + [Trim(pieces[i])]
  {
    assert pieces[..i + 1][..i] == pieces[..i];
  }

  /** `returnOrigins.push(...pieces.map((i) => i.trim()))` */
  method PushTrimmed(returnOrigins: seq<string>, pieces: seq<string>) returns (r: seq<string>)
    ensures r == returnOrigins + TrimAll(pieces)
  {
    r := returnOrigins;
    var i := 0;
    while i < |pieces|
      invariant 0 <= i <= |pieces|
      invariant r == returnOrigins + TrimAll(pieces[..i])
    {
      TrimAllSnoc(pieces, i);
      r := r + [Trim(pieces[i])];
      i := i + 1;
    }
    assert pieces[..|pieces|] == pieces;
  }

  /** `[...new Set(xs)]`: keep each element the first time the set has not seen it. */
  method SpreadSet(xs: seq<string>) returns (r: seq<string>)
    ensures r == Dedup(xs)
  {
    r := [];
    var seen: set<string> := {};
    var j := 0;
    while j < |xs|
      invariant 0 <= j <= |xs|
      invariant r == Dedup(xs[..j])
      invariant forall x :: x in seen <==> x in r
    {
      var x := xs[j];
      assert xs[..j + 1][..j] == xs[..j];
      assert xs[..j + 1][j] == x;
      if x !in seen {
        r := r + [x];
        seen := seen + {x};
      }
      j := j + 1;
    }
    assert xs[..j] == xs;
  }

  /**
   * `allowedCorsOrigins`: push the frontend domain when it is set, push the
   * trimmed pieces of the extra origins when that is set, then drop repeats.
   */
  method AllowedCorsOrigins(frontendDomain: Option<string>, allowedOrigins: Option<string>)
    returns (origins: seq<string>)
    ensures origins == Dedup(Collected(frontendDomain, allowedOrigins))
  {
    ghost var front := if Present(frontendDomain) then [frontendDomain.value] else [];
    ghost var rest := if Present(allowedOrigins) then TrimAll(Split(allowedOrigins.value, ',')) else [];
    var returnOrigins: seq<string> := [];
    if Present(frontendDomain) {
      returnOrigins := returnOrigins + [frontendDomain.value];
    }
    assert returnOrigins == front;
    if Present(allowedOrigins) {
      returnOrigins := PushTrimmed(returnOrigins, Split(allowedOrigins.value, ','));
    }
    assert returnOrigins == front + rest;
    origins := SpreadSet(returnOrigins);
  }

  /** The options object handed to `enableCors`. */
  datatype CorsOptions = CorsOptions(origin: seq<string>, methods: string, credentials: bool)

  /** `corsOptions`: the origin list, the fixed method list and credentials switched on. */
  method CorsOptionsFor(frontendDomain: Option<string>, allowedOrigins: Option<string>)
    returns (options: CorsOptions)
    ensures options.origin == Dedup(Collected(frontendDomain, allowedOrigins))
    ensures options.methods == METHODS && options.credentials
  {
    var origin := AllowedCorsOrigins(frontendDomain, allowedOrigins);
    options := CorsOptions(origin, METHODS, true);
  }

  /** The first element survives de-duplication in first place. */
  lemma DedupHead(xs: seq<string>)
    requires xs != []
    ensures |Dedup(xs)| >= 1 && Dedup(xs)[0] == xs[0]
  {
    var r := Dedup(xs);
    assert xs[0] in r;
    DedupKeepsFirstOccurrenceOrder(xs);
    assert FirstIndex(xs, xs[0]) == 0;
    var k :| 0 <= k < |r| && r[k] == xs[0];
    assert r[0] in xs;
    var first := FirstIndex(xs, r[0]);
    assert k == 0;
  }

  /** A set frontend domain comes first. */
  lemma FrontendDomainFirst(frontendDomain: string, allowedOrigins: Option<string>)
    requires frontendDomain != ""
    ensures var r := Dedup(Collected(Some(frontendDomain), allowedOrigins));
      |r| >= 1 && r[0] == frontendDomain
  {
    var xs := Collected(Some(frontendDomain), allowedOrigins);
    assert xs[0] == frontendDomain;
    DedupHead(xs);
  }

  /** Every origin is a set frontend domain or a trimmed piece of the extra origins, and each of those appears. */
  lemma OriginsAreCollected(frontendDomain: Option<string>, allowedOrigins: Option<string>, x: string)
    ensures x in Dedup(Collected(frontendDomain, allowedOrigins)) <==>
      (Present(frontendDomain) && x == frontendDomain.value)
      || (Present(allowedOrigins) && x in TrimAll(Split(allowedOrigins.value, ',')))
  {
  }

  /** An empty piece of the extra origins, as in `a,,b`, stays in the list as `''`. */
  lemma EmptyPieceKept()
    ensures "" in Dedup(Collected(None, Some("a,,b")))
  {
    var s := "a,,b";
    assert s == "a" + [','] + ",b";
    SplitAtFirst("a", ',', ",b");
    assert ",b" == "" + [','] + "b";
    SplitAtFirst("", ',', "b");
    SplitWithoutSeparator("b", ',');
    var pieces := Split(s, ',');
    assert pieces == ["a", "", "b"];
    var trimmed := TrimAll(pieces);
    TrimOfEmpty();
    assert trimmed[1] == Trim(pieces[1]) == "";
    assert Collected(None, Some(s)) == trimmed;
  }

  lemma TrimOfEmpty()
    ensures Trim("") == ""
  {
  }
}
