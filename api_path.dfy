/**
 * `api_path(api_base, *args)`: the URL of an endpoint of the statistics
 * API, built by joining path segments onto the base with POSIX path-join
 * rules after dropping one leading "/" from each segment.
 */
module ApiPath {
  import opened Sequences
  import opened Strings

  const ApiBase := "https://unstats.un.org"

  predicate StartsWithSlash(s: string) {
    |s| > 0 && s[0] == '/'
  }

  predicate EndsWithSlash(s: string) {
    |s| > 0 && s[|s| - 1] == '/'
  }

  /**
   * `posixpath.join(a, b)`: an absolute `b` replaces `a`; otherwise `b` is
   * appended, behind a "/" unless `a` is empty or already ends in one.
   */
  function Join(a: string, b: string): string
  {
    if StartsWithSlash(b) then b
    else if a == [] || EndsWithSlash(a) then a + b
    else a + "/" + b
  }

  /** The joined path ends with `b`, and starts with `a` unless `b` is absolute. */
  lemma JoinEnds(a: string, b: string)
    ensures EndsWith(Join(a, b), b)
    ensures !StartsWithSlash(b) ==> StartsWith(Join(a, b), a)
  {
    if !StartsWithSlash(b) && a != [] && !EndsWithSlash(a) {
      assert a + "/" + b == a + ("/" + b);
    }
  }

  /** `arg[1:]` when `arg` starts with "/", else `arg`. */
  function Strip(arg: string): (r: string)
    ensures StartsWithSlash(arg) ==> "/" + r == arg
    ensures !StartsWithSlash(arg) ==> r == arg
  {
    if StartsWithSlash(arg) then arg[1..] else arg
  }

  /** The segments as they are joined. */
  function Stripped(args: seq<string>): (r: seq<string>)
    ensures |r| == |args| && forall i :: 0 <= i < |args| ==> r[i] == Strip(args[i])
  {
    seq(|args|, i requires 0 <= i < |args| => Strip(args[i]))
  }

  /** The value `res` holds after the loop has consumed `args`. */
  function ApiPathOf(base: string, args: seq<string>): string
  {
    if args == [] then base
    else Join(ApiPathOf(base, args[..|args| - 1]), Strip(args[|args| - 1]))
  }

  /** One more segment joins its stripped form onto the path so far. */
  lemma ApiPathOfSnoc(base: string, init: seq<string>, x: string)
    ensures ApiPathOf(base, init + [x]) == Join(ApiPathOf(base, init), Strip(x))
  {
    assert (init + [x])[..|init|] == init;
  }

  /** `api_path`: reassign `res` to the join of `res` and each stripped segment in turn. */
  method ApiPath(base: string, args: seq<string>) returns (res: string)
    ensures res == ApiPathOf(base, args)
    ensures args == [] ==> res == base
    ensures args != [] ==> EndsWith(res, Strip(args[|args| - 1]))
  {
    res := base;
    for i := 0 to |args|
      invariant res == ApiPathOf(base, args[..i])
    {
      assert args[..i + 1][..i] == args[..i];
      res := Join(res, Strip(args[i]));
    }
    assert args[..|args|] == args;
    if args != [] {
      JoinEnds(ApiPathOf(base, args[..|args| - 1]), Strip(args[|args| - 1]));
    }
  }

  /** A segment given with one leading "/" gives the same URL as without it. */
  lemma LeadingSlashDropped(base: string, args: seq<string>, x: string)
    requires !StartsWithSlash(x)
    ensures ApiPathOf(base, args + ["/" + x]) == ApiPathOf(base, args + [x])
  {
    assert (args + ["/" + x])[..|args|] == args;
    assert (args + [x])[..|args|] == args;
    assert Strip("/" + x) == x;
  }

  /** The loop is a left fold: joining more segments onto a result continues it. */
  lemma {:induction false} FoldsLeft(base: string, first: seq<string>, more: seq<string>)
    ensures ApiPathOf(ApiPathOf(base, first), more) == ApiPathOf(base, first + more)
  {
    if more == [] {
      assert first + more == first;
    } else {
      var init, x := more[..|more| - 1], more[|more| - 1];
      calc {
        ApiPathOf(ApiPathOf(base, first), more);
        Join(ApiPathOf(ApiPathOf(base, first), init), Strip(x));
        { FoldsLeft(base, first, init); }
        Join(ApiPathOf(base, first + init), Strip(x));
        { ApiPathOfSnoc(base, first + init, x); }
        ApiPathOf(base, (first + init) + [x]);
        { assert (first + init) + [x] == first + more; }
        ApiPathOf(base, first + more);
      }
    }
  }

  /**
   * A segment that still starts with "/" once stripped, such as "//v1",
   * discards everything before it: the URL starts again from that segment.
   */
  lemma DoubleSlashRestarts(base: string, args: seq<string>, x: string)
    requires StartsWithSlash(x)
    ensures ApiPathOf(base, args + ["/" + x]) == x
  {
    assert (args + ["/" + x])[..|args|] == args;
    assert Strip("/" + x) == x;
  }

  /** The base stays at the front while no stripped segment is absolute. */
  lemma {:induction false} KeepsBase(base: string, args: seq<string>)
    requires forall i :: 0 <= i < |args| ==> !StartsWithSlash(Strip(args[i]))
    ensures StartsWith(ApiPathOf(base, args), base)
  {
    if args != [] {
      var init := args[..|args| - 1];
      KeepsBase(base, init);
      var p := ApiPathOf(base, init);
      var r := ApiPathOf(base, args);
      JoinEnds(p, Strip(args[|args| - 1]));
      assert r[..|base|] == r[..|p|][..|base|];
    }
  }

  /** A segment that is neither empty nor starts or ends with "/". */
  predicate Plain(s: string) {
    s != [] && !StartsWithSlash(s) && !EndsWithSlash(s)
  }

  /**
   * With a base that does not end in "/" and plain stripped segments, the
   * URL is the base and the stripped segments with one "/" between each.
   */
  lemma {:induction false} JoinsWithSlashes(base: string, args: seq<string>)
    requires base != [] && !EndsWithSlash(base) && args != []
    requires forall i :: 0 <= i < |args| ==> Plain(Strip(args[i]))
    ensures ApiPathOf(base, args) == base + "/" + JoinWith("/", Stripped(args))
    ensures !EndsWithSlash(ApiPathOf(base, args))
  {
    var init, x := args[..|args| - 1], args[|args| - 1];
    assert args == init + [x];
    ApiPathOfSnoc(base, init, x);
    StrippedSnoc(init, x);
    if init == [] {
      SlashStep(base, "", base, Strip(x));
    } else {
      JoinsWithSlashes(base, init);
      SlashStep(base, JoinWith("/", Stripped(init)), ApiPathOf(base, init), Strip(x));
    }
  }

  /** One plain segment joined onto a path that does not end in "/". */
  lemma SlashStep(base: string, j: string, p: string, s: string)
    requires p != [] && !EndsWithSlash(p) && Plain(s)
    requires p == if j == "" then base else base + "/" + j
    ensures Join(p, s) == base + "/" + (if j == "" then s else j + "/" + s)
    ensures !EndsWithSlash(Join(p, s))
  {
    assert Join(p, s) == p + "/" + s;
    LastOfConcat(p + "/", s);
  }

  lemma StrippedSnoc(init: seq<string>, x: string)
    ensures Stripped(init + [x]) == Stripped(init) + [Strip(x)]
    ensures JoinWith("/", Stripped(init + [x])) ==
      if init == [] then Strip(x) else JoinWith("/", Stripped(init)) + "/" + Strip(x)
  {
    assert Stripped(init + [x]) == Stripped(init) + [Strip(x)];
    assert (Stripped(init) + [Strip(x)])[..|init|] == Stripped(init);
  }

  /** The last character of a concatenation with a non-empty right part is that part's last. */
  lemma LastOfConcat(u: string, v: string)
    requires v != []
    ensures (u + v)[|u + v| - 1] == v[|v| - 1]
  {
  }

  /** Two segments with a leading "/" each, as the download script passes them. */
  lemma TwoRootedSegments(base: string, x: string, y: string)
    requires base != [] && !EndsWithSlash(base) && Plain(x) && Plain(y)
    ensures ApiPathOf(base, ["/" + x, "/" + y]) == base + "/" + x + "/" + y
  {
    var args := ["/" + x, "/" + y];
    assert Stripped(args) == [x, y] by {
      assert Strip("/" + x) == x && Strip("/" + y) == y;
    }
    JoinsWithSlashes(base, args);
    assert JoinWith("/", [x, y]) == x + "/" + y by {
      assert [x, y][..1] == [x];
    }
  }

  /** The endpoint that lists the statistical series: base, "SDGAPI" and "v1/sdg/Series/List", one "/" apart. */
  lemma SeriesListPath()
    ensures ApiPathOf(ApiBase, ["/SDGAPI", "/v1/sdg/Series/List"]) == ApiBase + "/" + "SDGAPI" + "/" + "v1/sdg/Series/List"
  {
    var x, y := "SDGAPI", "v1/sdg/Series/List";
    assert "/" + x == "/SDGAPI" && "/" + y == "/v1/sdg/Series/List";
    TwoRootedSegments(ApiBase, x, y);
  }
}
