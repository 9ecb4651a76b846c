/** Locating VS Code's workbench HTML file: converting `PathLike` values to
    strings, building the six candidate paths, classifying each candidate by
    the outcome of `stat`, and the any-success search over them.

    The host is a parameter: `env.appRoot`, `path.join`, `Buffer.toString`
    and `decodeURIComponent` are fields of a `Host`, `stat` is a function from
    path to outcome, and the timing of the concurrent checks is an order in
    which the candidates settle. */
module Workbench {
  import opened Wrappers

  datatype Url = Url(protocol: string, pathname: string)

  /** Node's `PathLike`: a string, a `Buffer` or a `URL`; `PathOther` stands
      for any other value reaching the function at run time. */
  datatype PathLike =
    | PathString(text: string)
    | PathBuffer(bytes: seq<bv8>)
    | PathUrl(url: Url)
    | PathOther

  /** The exceptions the modelled code throws. `ReadOfUndefined(p)` is the
      `TypeError` raised by reading property `p` of `undefined`. */
  datatype JsError =
    | TypeError(message: string)
    | UriError
    | ReadOfUndefined(property: string)

  /** The parts of the Node and VS Code host the code calls into. */
  datatype Host = Host(
    appRoot: string,
    join: seq<string> -> string,
    decodeUtf8: seq<bv8> -> string,
    decodeUriComponent: string -> Option<string>)

  const NotFileUrlMessage: string := "Only file protocol URLs are supported"
  const UnsupportedPathMessage: string := "Unsupported PathLike type"

  /** `pathLikeToString`: a string as it is, a buffer decoded, a `file:` URL
      as its decoded pathname; any other URL or value is a `TypeError`. */
  function PathLikeToString(p: PathLike, host: Host): (r: Result<string, JsError>)
    ensures p.PathString? ==> r == Success(p.text)
    ensures p.PathBuffer? ==> r == Success(host.decodeUtf8(p.bytes))
    ensures r.Failure? && r.error.TypeError? <==>
              (p.PathUrl? && p.url.protocol != "file:") || p.PathOther?
    ensures p.PathUrl? && p.url.protocol == "file:" ==>
              && (r.Success? <==> host.decodeUriComponent(p.url.pathname).Some?)
              && (r.Success? ==> r.value == host.decodeUriComponent(p.url.pathname).value)
  {
    match p
    case PathString(text) => Success(text)
    case PathBuffer(bytes) => Success(host.decodeUtf8(bytes))
    case PathUrl(url) =>
      if url.protocol != "file:" then Failure(TypeError(NotFileUrlMessage))
      else
        (match host.decodeUriComponent(url.pathname)
         case Some(t) => Success(t)
         case None => Failure(UriError))
    case PathOther => Failure(TypeError(UnsupportedPathMessage))
  }

  /** `paths.map(pathLikeToString)`: every conversion in order, or the
      exception of the first one that throws. */
  function PathsToStrings(paths: seq<PathLike>, host: Host): (r: Result<seq<string>, JsError>)
    ensures r.Success? <==> forall i :: 0 <= i < |paths| ==> PathLikeToString(paths[i], host).Success?
    ensures r.Success? ==>
              && |r.value| == |paths|
              && forall i :: 0 <= i < |paths| ==> r.value[i] == PathLikeToString(paths[i], host).value
    ensures r.Failure? ==>
              exists k :: && 0 <= k < |paths|
                          && (forall i :: 0 <= i < k ==> PathLikeToString(paths[i], host).Success?)
                          && PathLikeToString(paths[k], host) == Failure(r.error)
  {
    if |paths| == 0 then Success([])
    else
      match PathLikeToString(paths[0], host)
      case Failure(e) => Failure(e)
      case Success(t) =>
        match PathsToStrings(paths[1..], host)
        case Failure(e) =>
          assert forall i :: 1 <= i < |paths| ==> paths[i] == paths[1..][i - 1];
          Failure(e)
        case Success(ts) =>
          assert forall i :: 1 <= i < |paths| ==> paths[i] == paths[1..][i - 1];
          Success([t] + ts)
  }

  /** `joinPathLike`: `path.join` of the converted paths. */
  function JoinPathLike(paths: seq<PathLike>, host: Host): (r: Result<string, JsError>)
    ensures r.Success? <==> forall i :: 0 <= i < |paths| ==> PathLikeToString(paths[i], host).Success?
    ensures r.Success? ==> r.value == host.join(PathsToStrings(paths, host).value)
    ensures r.Failure? ==> PathsToStrings(paths, host) == Failure(r.error)
  {
    match PathsToStrings(paths, host)
    case Success(ts) => Success(host.join(ts))
    case Failure(e) => Failure(e)
  }

  /** The texts of a sequence of string paths. */
  function Texts(paths: seq<PathLike>): (ts: seq<string>)
    requires forall i :: 0 <= i < |paths| ==> paths[i].PathString?
    ensures |ts| == |paths| && forall i :: 0 <= i < |paths| ==> ts[i] == paths[i].text
  {
    seq(|paths|, i requires 0 <= i < |paths| => paths[i].text)
  }

  /** Joining string paths never throws and joins the strings themselves. */
  lemma JoinStringPaths(paths: seq<PathLike>, host: Host)
    requires forall i :: 0 <= i < |paths| ==> paths[i].PathString?
    ensures JoinPathLike(paths, host) == Success(host.join(Texts(paths)))
  {
    var r := PathsToStrings(paths, host);
    assert r.Success?;
    assert r.value == Texts(paths);
  }

  /** `xs.flatMap(x => ys.map(y => f(x, y)))`: every pair, `xs`-major. */
  function Product<A, B, C>(xs: seq<A>, ys: seq<B>, f: (A, B) -> C): (r: seq<C>)
    ensures |r| == |xs| * |ys|
  {
    if |xs| == 0 then []
    else seq(|ys|, j requires 0 <= j < |ys| => f(xs[0], ys[j])) + Product(xs[1..], ys, f)
  }

  /** Entry `i * |ys| + j` of the product pairs `xs[i]` with `ys[j]`. */
  lemma {:induction false} ProductAt<A, B, C>(xs: seq<A>, ys: seq<B>, f: (A, B) -> C, i: nat, j: nat)
    requires i < |xs| && j < |ys|
    ensures i * |ys| + j < |Product(xs, ys, f)|
    ensures Product(xs, ys, f)[i * |ys| + j] == f(xs[i], ys[j])
    decreases i
  {
    var n := |ys|;
    assert i * n + j < |xs| * n by {
      assert (i + 1) * n <= |xs| * n by {
        assert i + 1 <= |xs|;
        MulMonotone(i + 1, |xs|, n);
      }
      assert (i + 1) * n == i * n + n;
    }
    if i > 0 {
      ProductAt(xs[1..], ys, f, i - 1, j);
      assert (i - 1) * n + j + n == i * n + j;
    }
  }

  lemma MulMonotone(a: nat, b: nat, n: nat)
    requires a <= b
    ensures a * n <= b * n
  {
  }

  const WorkbenchDirectories: seq<seq<string>> :=
    [["electron-sandbox", "workbench"], ["electron-browser", "workbench"]]

  const HtmlFiles: seq<string> := ["workbench.html", "workbench.esm.html", "workbench-dev.html"]

  /** `path.join(env.appRoot, "out", "vs", "code")`. */
  function BasePath(host: Host): string {
    host.join([host.appRoot, "out", "vs", "code"])
  }

  /** The two candidate directories, older layout first. */
  function Directories(host: Host): seq<string> {
    [host.join(WorkbenchDirectories[0]), host.join(WorkbenchDirectories[1])]
  }

  /** `joinPathLike(basePath, dir, file)` on string paths, which cannot
      throw. */
  function CandidatePath(host: Host, dir: string, file: string): (r: string)
    ensures r == host.join([BasePath(host), dir, file])
  {
    var paths := [PathString(BasePath(host)), PathString(dir), PathString(file)];
    JoinStringPaths(paths, host);
    assert Texts(paths) == [BasePath(host), dir, file];
    JoinPathLike(paths, host).value
  }

  /** The callback of the `flatMap`/`map` pair: a directory and a file
      name to a candidate path. */
  function CandidateUnder(host: Host): (string, string) -> string {
    (d, f) => CandidatePath(host, d, f)
  }

  /** The candidate paths: the three file names under the older directory,
      then the same three under the newer one. */
  function CandidatePaths(host: Host): (r: seq<string>)
    ensures var sandbox := host.join(["electron-sandbox", "workbench"]);
            var browser := host.join(["electron-browser", "workbench"]);
            r == [
              CandidatePath(host, sandbox, "workbench.html"),
              CandidatePath(host, sandbox, "workbench.esm.html"),
              CandidatePath(host, sandbox, "workbench-dev.html"),
              CandidatePath(host, browser, "workbench.html"),
              CandidatePath(host, browser, "workbench.esm.html"),
              CandidatePath(host, browser, "workbench-dev.html")]
  {
    ProductTwoByThree(Directories(host), HtmlFiles, CandidateUnder(host));
    Product(Directories(host), HtmlFiles, CandidateUnder(host))
  }

  /** The product of two and three values, written out. */
  lemma ProductTwoByThree<A, B, C>(xs: seq<A>, ys: seq<B>, f: (A, B) -> C)
    requires |xs| == 2 && |ys| == 3
    ensures Product(xs, ys, f) == [
              f(xs[0], ys[0]), f(xs[0], ys[1]), f(xs[0], ys[2]),
              f(xs[1], ys[0]), f(xs[1], ys[1]), f(xs[1], ys[2])]
  {
    ProductAt(xs, ys, f, 0, 0);
    ProductAt(xs, ys, f, 0, 1);
    ProductAt(xs, ys, f, 0, 2);
    ProductAt(xs, ys, f, 1, 0);
    ProductAt(xs, ys, f, 1, 1);
    ProductAt(xs, ys, f, 1, 2);
  }

  /** What `stat` reports: the entry, or the failure code. */
  datatype StatOutcome = Stats(isDirectory: bool) | StatFailure(code: string)

  /** Why a candidate failed. */
  datatype FailReason = NotFound | IsDirectory | StatError(code: string)

  datatype Score = Pass | Fail(reason: FailReason)

  /** `testCandidatePath` with the failure reasons it evidently means to
      report: a candidate passes exactly when it exists and is not a
      directory; a missing one fails as not found; a directory or any other
      stat failure fails with a reason of its own. */
  function TestCandidatePath(o: StatOutcome): (s: Score)
    ensures s == Pass <==> o == Stats(false)
    ensures s == Fail(NotFound) <==> o == StatFailure("ENOENT")
    ensures s == Fail(IsDirectory) <==> o == Stats(true)
    ensures s.Fail? && s.reason.StatError? <==> o.StatFailure? && o.code != "ENOENT"
  {
    match o
    case Stats(isDirectory) => if isDirectory then Fail(IsDirectory) else Pass
    case StatFailure(code) => if code == "ENOENT" then Fail(NotFound) else Fail(StatError(code))
  }

  /** How the promise made for one candidate settles. */
  datatype Settlement = Fulfilled(path: string) | Rejected(reason: FailReason)

  /** The promise for one candidate: it resolves to the path when the
      candidate passes and rejects with the reason otherwise. */
  function Settle(path: string, s: Score): (r: Settlement)
    ensures r.Fulfilled? <==> s == Pass
    ensures r.Fulfilled? ==> r.path == path
    ensures r.Rejected? ==> r.reason == s.reason
  {
    match s
    case Pass => Fulfilled(path)
    case Fail(reason) => Rejected(reason)
  }

  /** Settling a candidate shows an error message exactly when it rejects
      for a reason other than not being found. */
  predicate ShowsError(r: Settlement) {
    r.Rejected? && r.reason != NotFound
  }

  /** A candidate shows an error message exactly when it is a directory or
      `stat` failed with a code other than `ENOENT`. */
  lemma CandidateShowsErrorIff(path: string, o: StatOutcome)
    ensures ShowsError(Settle(path, TestCandidatePath(o))) <==>
              o == Stats(true) || (o.StatFailure? && o.code != "ENOENT")
  {
  }

  /** `order` lists each of the `n` candidates, in the order their promises
      settle. */
  predicate IsOrder(order: seq<nat>, n: nat) {
    && |order| == n
    && (forall k :: 0 <= k < n ==> order[k] < n)
    && (forall i :: 0 <= i < n ==> i in order)
  }

  /** The first fulfilled promise when they settle in `order`. */
  function FirstFulfilled(ss: seq<Settlement>, order: seq<nat>): (r: Option<string>)
    requires forall k :: 0 <= k < |order| ==> order[k] < |ss|
    ensures r.None? <==> forall k :: 0 <= k < |order| ==> ss[order[k]].Rejected?
    ensures r.Some? ==>
              exists k :: && 0 <= k < |order| && ss[order[k]] == Fulfilled(r.value)
                          && forall k' :: 0 <= k' < k ==> ss[order[k']].Rejected?
  {
    if |order| == 0 then None
    else if ss[order[0]].Fulfilled? then Some(ss[order[0]].path)
    else
      var r := FirstFulfilled(ss, order[1..]);
      assert forall k :: 1 <= k < |order| ==> order[k] == order[1..][k - 1];
      FirstFulfilledShift(ss, order, r);
      r
  }

  /** A promise that fulfils first among the later ones, after a first one
      that rejects, fulfils first among all of them. */
  lemma FirstFulfilledShift(ss: seq<Settlement>, order: seq<nat>, r: Option<string>)
    requires 0 < |order| && forall k :: 0 <= k < |order| ==> order[k] < |ss|
    requires ss[order[0]].Rejected?
    requires r.Some? ==>
               exists k :: && 0 <= k < |order[1..]| && ss[order[1..][k]] == Fulfilled(r.value)
                           && forall k' :: 0 <= k' < k ==> ss[order[1..][k']].Rejected?
    ensures r.Some? ==>
              exists k :: && 0 <= k < |order| && ss[order[k]] == Fulfilled(r.value)
                          && forall k' :: 0 <= k' < k ==> ss[order[k']].Rejected?
  {
    if r.Some? {
      var k :| && 0 <= k < |order[1..]| && ss[order[1..][k]] == Fulfilled(r.value)
               && forall k' :: 0 <= k' < k ==> ss[order[1..][k']].Rejected?;
      assert ss[order[k + 1]] == Fulfilled(r.value);
      forall k' | 0 <= k' < k + 1 ensures ss[order[k']].Rejected? {
        if k' > 0 {
          assert order[k'] == order[1..][k' - 1];
        }
      }
    }
  }

  /** The reasons of rejected promises, in the order the promises were
      given: the `errors` of the `AggregateError`. */
  function Reasons(ss: seq<Settlement>): (r: seq<FailReason>)
    requires forall i :: 0 <= i < |ss| ==> ss[i].Rejected?
    ensures |r| == |ss| && forall i :: 0 <= i < |ss| ==> r[i] == ss[i].reason
  {
    seq(|ss|, i requires 0 <= i < |ss| && ss[i].Rejected? => ss[i].reason)
  }

  /** `Promise.any`: the first promise to fulfil, or an `AggregateError`
      holding every rejection reason when none does. */
  function PromiseAny(ss: seq<Settlement>, order: seq<nat>): (r: Result<string, seq<FailReason>>)
    requires IsOrder(order, |ss|)
    ensures r.Success? ==> exists i :: 0 <= i < |ss| && ss[i] == Fulfilled(r.value)
    ensures r.Failure? <==> forall i :: 0 <= i < |ss| ==> ss[i].Rejected?
    ensures r.Success? ==> FirstFulfilled(ss, order) == Some(r.value)
    ensures r.Failure? ==> r.error == Reasons(ss)
  {
    match FirstFulfilled(ss, order)
    case Some(p) => Success(p)
    case None =>
      assert forall i :: 0 <= i < |ss| ==> ss[i].Rejected? by {
        forall i | 0 <= i < |ss| ensures ss[i].Rejected? {
          assert i in order;
          var k :| 0 <= k < |order| && order[k] == i;
        }
      }
      Failure(Reasons(ss))
  }

  /** The reasons shown as error messages, in the order the candidates
      settle. */
  function ShownMessages(ss: seq<Settlement>, order: seq<nat>): (r: seq<FailReason>)
    requires forall k :: 0 <= k < |order| ==> order[k] < |ss|
    ensures forall x :: x in r <==> exists k :: 0 <= k < |order| && ShowsError(ss[order[k]]) && ss[order[k]].reason == x
    ensures |r| == |Showing(ss, order)|
  {
    if |order| == 0 then
      assert Showing(ss, order) == {};
      []
    else
      var n := |order| - 1;
      var rest := ShownMessages(ss, order[..n]);
      ShownStep(ss, order, rest);
      if ShowsError(ss[order[n]]) then rest + [ss[order[n]].reason] else rest
  }

  /** One more promise settling: its message, if it shows one, joins those
      shown before it. */
  lemma ShownStep(ss: seq<Settlement>, order: seq<nat>, rest: seq<FailReason>)
    requires 0 < |order| && forall k :: 0 <= k < |order| ==> order[k] < |ss|
    requires var n := |order| - 1;
             && (forall x :: x in rest <==>
                   exists k :: 0 <= k < n && ShowsError(ss[order[..n][k]]) && ss[order[..n][k]].reason == x)
             && |rest| == |Showing(ss, order[..n])|
    ensures var n := |order| - 1;
            var r := if ShowsError(ss[order[n]]) then rest + [ss[order[n]].reason] else rest;
            && (forall x :: x in r <==> exists k :: 0 <= k < |order| && ShowsError(ss[order[k]]) && ss[order[k]].reason == x)
            && |r| == |Showing(ss, order)|
  {
    var n := |order| - 1;
    assert forall k :: 0 <= k < n ==> order[k] == order[..n][k];
    ShowingSnoc(ss, order);
  }

  /** The positions in the settling order whose promise shows a message. */
  ghost function Showing(ss: seq<Settlement>, order: seq<nat>): set<nat>
    requires forall k :: 0 <= k < |order| ==> order[k] < |ss|
  {
    set k: nat | k < |order| && ShowsError(ss[order[k]])
  }

  /** One more promise settling adds its own position when it shows a message. */
  lemma ShowingSnoc(ss: seq<Settlement>, order: seq<nat>)
    requires 0 < |order| && forall k :: 0 <= k < |order| ==> order[k] < |ss|
    ensures var n := |order| - 1;
            && n !in Showing(ss, order[..n])
            && Showing(ss, order) == Showing(ss, order[..n]) + (if ShowsError(ss[order[n]]) then {n} else {})
  {
    var n := |order| - 1;
    assert forall k :: 0 <= k < n ==> order[..n][k] == order[k];
  }

  /** What `locateWorkbench` produces: its result, and the error messages it
      shows on the way. */
  datatype Located = Located(result: Result<string, seq<FailReason>>, shown: seq<FailReason>)

  /** How each candidate settles, given what `stat` reports for it. */
  function Settlements(candidates: seq<string>, stat: string -> StatOutcome): (ss: seq<Settlement>)
    ensures |ss| == |candidates|
    ensures forall i :: 0 <= i < |candidates| ==> ss[i] == Settle(candidates[i], TestCandidatePath(stat(candidates[i])))
  {
    seq(|candidates|, i requires 0 <= i < |candidates| => Settle(candidates[i], TestCandidatePath(stat(candidates[i]))))
  }

  /** For any list of candidates: `Promise.any` over their promises resolves
      to a candidate that exists and is not a directory, and rejects exactly
      when none passes, with every candidate's reason in candidate order. */
  lemma AnyCandidatePasses(c: seq<string>, stat: string -> StatOutcome, order: seq<nat>)
    requires IsOrder(order, |c|)
    ensures var r := PromiseAny(Settlements(c, stat), order);
            && (r.Success? ==> exists i :: 0 <= i < |c| && c[i] == r.value && stat(c[i]) == Stats(false))
            && (r.Failure? <==> forall i :: 0 <= i < |c| ==> stat(c[i]) != Stats(false))
            && (r.Failure? ==>
                  && |r.error| == |c|
                  && forall i :: 0 <= i < |c| ==> Fail(r.error[i]) == TestCandidatePath(stat(c[i])))
  {
    var ss := Settlements(c, stat);
    var r := PromiseAny(ss, order);
    if r.Success? {
      var i :| 0 <= i < |ss| && ss[i] == Fulfilled(r.value);
      assert c[i] == r.value && stat(c[i]) == Stats(false);
    }
  }

  /** `locateWorkbench`: check every candidate at once and take the first
      to pass, with the candidates settling in `order`. It resolves only to
      a candidate that exists and is not a directory, rejects exactly when
      no candidate passes, and shows one message per candidate that shows
      an error. */
  function LocateWorkbench(host: Host, stat: string -> StatOutcome, order: seq<nat>): (r: Located)
    requires IsOrder(order, |CandidatePaths(host)|)
    ensures var c := CandidatePaths(host);
            && (r.result.Success? ==>
                  exists i :: 0 <= i < |c| && c[i] == r.result.value && stat(c[i]) == Stats(false))
            && (r.result.Failure? <==> forall i :: 0 <= i < |c| ==> stat(c[i]) != Stats(false))
            && (r.result.Failure? ==>
                  && |r.result.error| == |c|
                  && forall i :: 0 <= i < |c| ==> Fail(r.result.error[i]) == TestCandidatePath(stat(c[i])))
            && (r.result.Success? ==> FirstFulfilled(Settlements(c, stat), order) == Some(r.result.value))
            && |r.shown| == |Showing(Settlements(c, stat), order)|
  {
    var c := CandidatePaths(host);
    var ss := Settlements(c, stat);
    AnyCandidatePasses(c, stat, order);
    Located(PromiseAny(ss, order), ShownMessages(ss, order))
  }

  /** With every promise settling once, the shown messages are the reasons
      of the promises that reject for a reason other than not being found,
      whatever the order. */
  lemma ShownMessagesIff(ss: seq<Settlement>, order: seq<nat>, x: FailReason)
    requires IsOrder(order, |ss|)
    ensures x in ShownMessages(ss, order) <==> exists i :: 0 <= i < |ss| && ss[i] == Rejected(x) && x != NotFound
  {
    if exists i :: 0 <= i < |ss| && ss[i] == Rejected(x) && x != NotFound {
      var i :| 0 <= i < |ss| && ss[i] == Rejected(x) && x != NotFound;
      assert i in order;
      var k :| 0 <= k < |order| && order[k] == i;
      assert ShowsError(ss[order[k]]) && ss[order[k]].reason == x;
    }
  }

  /** Each shown message belongs to a candidate that failed for a reason
      other than not being found, and every such candidate shows one. */
  lemma LocateShowsNonMissingFailures(host: Host, stat: string -> StatOutcome, order: seq<nat>, x: FailReason)
    requires IsOrder(order, |CandidatePaths(host)|)
    ensures var c := CandidatePaths(host);
            x in LocateWorkbench(host, stat, order).shown <==>
              exists i :: 0 <= i < |c| && TestCandidatePath(stat(c[i])) == Fail(x) && x != NotFound
  {
    AnyCandidateShows(CandidatePaths(host), stat, order, x);
  }

  /** For any list of candidates, the messages shown are the reasons of the
      candidates that fail other than as not found. */
  lemma AnyCandidateShows(c: seq<string>, stat: string -> StatOutcome, order: seq<nat>, x: FailReason)
    requires IsOrder(order, |c|)
    ensures x in ShownMessages(Settlements(c, stat), order) <==>
              exists i :: 0 <= i < |c| && TestCandidatePath(stat(c[i])) == Fail(x) && x != NotFound
  {
    var ss := Settlements(c, stat);
    ShownMessagesIff(ss, order, x);
    if exists i :: 0 <= i < |ss| && ss[i] == Rejected(x) && x != NotFound {
      var i :| 0 <= i < |ss| && ss[i] == Rejected(x) && x != NotFound;
      assert TestCandidatePath(stat(c[i])) == Fail(x);
    }
    if exists i :: 0 <= i < |c| && TestCandidatePath(stat(c[i])) == Fail(x) && x != NotFound {
      var i :| 0 <= i < |c| && TestCandidatePath(stat(c[i])) == Fail(x) && x != NotFound;
      assert ss[i] == Rejected(x);
    }
  }

  /** The positions `0..n` other than `i`, in increasing order. */
  function Others(n: nat, i: nat): (r: seq<nat>)
    ensures forall k :: 0 <= k < |r| ==> r[k] < n && r[k] != i
    ensures forall j :: 0 <= j < n && j != i ==> j in r
    ensures i < n ==> |r| == n - 1
    ensures i >= n ==> |r| == n
  {
    if n == 0 then []
    else
      var r := Others(n - 1, i);
      if n - 1 == i then r else r + [n - 1]
  }

  /** Any candidate that passes is a possible result: it is the result when
      it settles first. */
  lemma LocateCanResolveToAnyPassing(host: Host, stat: string -> StatOutcome, i: nat)
    requires i < |CandidatePaths(host)| && stat(CandidatePaths(host)[i]) == Stats(false)
    ensures var c := CandidatePaths(host);
            exists order :: IsOrder(order, |c|) && LocateWorkbench(host, stat, order).result == Success(c[i])
  {
    var c := CandidatePaths(host);
    var order := AnyPassingCanWin(c, stat, i);
    assert LocateWorkbench(host, stat, order).result == PromiseAny(Settlements(c, stat), order);
  }

  /** For any list of candidates, a passing one settling first is the result. */
  lemma AnyPassingCanWin(c: seq<string>, stat: string -> StatOutcome, i: nat) returns (order: seq<nat>)
    requires i < |c| && stat(c[i]) == Stats(false)
    ensures IsOrder(order, |c|) && PromiseAny(Settlements(c, stat), order) == Success(c[i])
  {
    order := [i] + Others(|c|, i);
    assert IsOrder(order, |c|) by {
      forall j | 0 <= j < |c| ensures j in order {
        if j != i {
          assert j in Others(|c|, i);
        }
      }
      forall k | 0 <= k < |order| ensures order[k] < |c| {
        if k > 0 {
          assert order[k] == Others(|c|, i)[k - 1];
        }
      }
    }
  }


  // The code as written: `testCandidatePath` reads `messages.errors`, which
  // `messages` does not define, so its directory and stat-error branches
  // throw instead of returning a reason.

  /** `CandidateScore` as the source builds it. */
  datatype RawScore = RawScore(pass: bool, failReason: Option<string>)

  /** The `catch` block of `testCandidatePath` for an error with `code`:
      `ENOENT` gives a score, anything else reads `messages.errors` and
      throws. */
  function CatchAsWritten(code: Option<string>): (r: Result<RawScore, JsError>)
    ensures r.Success? <==> code == Some("ENOENT")
  {
    if code == Some("ENOENT") then Success(RawScore(false, Some("ENOENT")))
    else Failure(ReadOfUndefined("workbenchPathFailedStat"))
  }

  /** `testCandidatePath` as written. A directory makes it read
      `messages.errors` inside the `try`; the resulting `TypeError`, which
      has no `code`, goes to the `catch`, which reads `messages.errors`
      again and throws out of the function. */
  function TestCandidateAsWritten(o: StatOutcome): (r: Result<RawScore, JsError>)
    ensures r.Success? <==> o == Stats(false) || o == StatFailure("ENOENT")
  {
    match o
    case Stats(isDirectory) =>
      if isDirectory then CatchAsWritten(None) else Success(RawScore(true, None))
    case StatFailure(code) => CatchAsWritten(Some(code))
  }

  /** How a candidate's promise settles as written: an exception from
      `testCandidatePath` rejects it before any message is shown; a failing
      score shows a message unless its reason is `"ENOENT"`. */
  datatype RawSettlement = RawFulfilled(path: string) | RawRejected(shown: bool)

  function SettleAsWritten(path: string, r: Result<RawScore, JsError>): (s: RawSettlement)
    ensures s == RawFulfilled(path) <==> r.Success? && r.value.pass
    ensures s == RawRejected(false) <==>
              r.Failure? || (!r.value.pass && r.value.failReason == Some("ENOENT"))
    ensures s == RawRejected(true) <==>
              r.Success? && !r.value.pass && r.value.failReason != Some("ENOENT")
  {
    match r
    case Failure(_) => RawRejected(false)
    case Success(score) =>
      if score.pass then RawFulfilled(path)
      else RawRejected(score.failReason != Some("ENOENT"))
  }

  /** As written, no candidate ever shows an error message, and the
      candidates that pass are the same as with the intended reasons. */
  lemma AsWrittenShowsNoMessage(path: string, o: StatOutcome)
    ensures SettleAsWritten(path, TestCandidateAsWritten(o)) != RawRejected(true)
    ensures SettleAsWritten(path, TestCandidateAsWritten(o)).RawFulfilled? <==> TestCandidatePath(o) == Pass
  {
  }

  /** A directory shows no message as written, though the intended
      classification shows one. */
  lemma DirectoryMessageLost(path: string)
    ensures SettleAsWritten(path, TestCandidateAsWritten(Stats(true))) == RawRejected(false)
    ensures ShowsError(Settle(path, TestCandidatePath(Stats(true))))
  {
  }
}
