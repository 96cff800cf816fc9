/**
 * parseLinks (github.go:441-457): every `#N` in a text is cut out once and resolved to
 * the URL of issue N of the same repository, then every URL is cut out and kept; the
 * first reference that cannot be resolved stops the scan.
 */
module GithubLinks {

  import opened Types
  import opened Text
  import opened Scan

  /**
   * resolveHashRef (github.go:607-613): the URL of issue `ref` of `org`/`repo`, or the
   * error of fetching it. It queries the network, so the model takes it as a parameter.
   */
  type Resolver = (string, string, int) -> Result<string, string>

  /**
   * `strconv.Atoi` of a reference's digits with its error ignored (github.go:445): a
   * value beyond Go's `int` comes back as the largest `int`, as ParseInt reports a range
   * error.
   */
  function RefNumber(m: Match): (r: int)
    ensures AllDigits(m.group) && DigitsValue(m.group) <= MaxInt ==> r == DigitsValue(m.group)
    ensures 0 <= r <= MaxInt
  {
    if AllDigits(m.group) then
      match Atoi(m.group)
      case Some(v) => v
      case None => MaxInt
    else 0
  }

  /** The resolver's answer for the `j`-th reference. */
  function Answer(resolve: Resolver, org: string, repo: string, m: Match): Result<string, string>
  {
    resolve(org, repo, RefNumber(m))
  }

  /** The first reference among `ms[i..]` the resolver cannot resolve. */
  function FirstFailure(resolve: Resolver, org: string, repo: string, ms: seq<Match>, i: nat): (r: Option<nat>)
    requires i <= |ms|
    ensures r.Some? ==> i <= r.value < |ms| && Answer(resolve, org, repo, ms[r.value]).Err?
    ensures r.Some? ==> forall j :: i <= j < r.value ==> Answer(resolve, org, repo, ms[j]).Ok?
    ensures r.None? ==> forall j :: i <= j < |ms| ==> Answer(resolve, org, repo, ms[j]).Ok?
    decreases |ms| - i
  {
    if i == |ms| then None
    else if Answer(resolve, org, repo, ms[i]).Err? then Some(i)
    else FirstFailure(resolve, org, repo, ms, i + 1)
  }

  /** The URLs the resolver gives for references it resolves. */
  function Resolved(resolve: Resolver, org: string, repo: string, ms: seq<Match>): (r: seq<string>)
    requires forall j :: 0 <= j < |ms| ==> Answer(resolve, org, repo, ms[j]).Ok?
    ensures |r| == |ms|
    ensures forall j :: 0 <= j < |ms| ==> r[j] == Answer(resolve, org, repo, ms[j]).value
  {
    if ms == [] then []
    else Resolved(resolve, org, repo, ms[..|ms| - 1]) + [Answer(resolve, org, repo, ms[|ms| - 1]).value]
  }

  /** The URL each match of reURL captures. */
  function Targets(ms: seq<Match>): (r: seq<string>)
    ensures |r| == |ms|
    ensures forall j :: 0 <= j < |ms| ==> r[j] == ms[j].group
  {
    seq(|ms|, j requires 0 <= j < |ms| => ms[j].group)
  }

  /** What parseLinks returns: the remaining text, the links, and the resolver's error if one failed. */
  datatype Parsed = Parsed(text: string, links: seq<string>, err: Option<string>)

  /**
   * parseLinks' result. The references are those of the text as given. If the resolver
   * fails on reference `k`, the result is the text with references 0 to `k` cut out (the
   * failing one included), the URLs of references 0 to `k - 1`, and the error. Otherwise
   * it is the text with every reference and then every URL cut out, and the resolved
   * URLs followed by the URLs found.
   */
  function LinksOf(resolve: Resolver, org: string, repo: string, str: string): (r: Parsed)
  {
    var refs := FindAll(HashRef, str, 0);
    var texts := Texts(str, refs);
    match FirstFailure(resolve, org, repo, refs, 0)
    case Some(k) =>
      Parsed(RemoveEach(str, texts[..k + 1]), Resolved(resolve, org, repo, refs[..k]),
             Some(Answer(resolve, org, repo, refs[k]).error))
    case None =>
      var s := Strip(HashRef, str, 0);
      var urls := FindAll(Url, s, 0);
      Parsed(RemoveEach(s, Texts(s, urls)), Resolved(resolve, org, repo, refs) + Targets(urls), None)
  }

  /** parseLinks (github.go:441-457): the references first, then the URLs of what is left. */
  method ParseLinks(resolve: Resolver, org: string, repo: string, str0: string)
    returns (str: string, links: seq<string>, err: Option<string>)
    ensures Parsed(str, links, err) == LinksOf(resolve, org, repo, str0)
  {
    var refs := FindAll(HashRef, str0, 0);
    str, links, err := CutEachRef(resolve, org, repo, str0, refs, Texts(str0, refs));
    if err.Some? {
      return;
    }
    RemoveHashRefs(str0);
    var urls := FindAll(Url, str, 0);
    var rest, found := CutEachTarget(str, urls, Texts(str, urls));
    str := rest;
    links := links + found;
  }

  /**
   * The loop of github.go:443-451 over the references `refs`, whose texts are `texts`:
   * each is cut out, then resolved; the first failure stops the loop.
   */
  method CutEachRef(resolve: Resolver, org: string, repo: string, str0: string, refs: seq<Match>, texts: seq<string>)
    returns (str: string, links: seq<string>, err: Option<string>)
    requires |texts| == |refs|
    ensures match FirstFailure(resolve, org, repo, refs, 0)
      case Some(k) =>
        && str == RemoveEach(str0, texts[..k + 1]) && links == Resolved(resolve, org, repo, refs[..k])
        && err == Some(Answer(resolve, org, repo, refs[k]).error)
      case None =>
        str == RemoveEach(str0, texts) && links == Resolved(resolve, org, repo, refs) && err.None?
  {
    links := [];
    str := str0;
    err := None;
    var i := 0;
    while i < |refs|
      invariant i <= |refs| && RefsDone(resolve, org, repo, str0, refs, texts, i, str, links)
    {
      RemoveEachPrefix(str0, texts, i);
      str := ReplaceFirst(str, texts[i], "");
      var link := resolve(org, repo, RefNumber(refs[i]));
      if link.Err? {
        FirstFailureAt(resolve, org, repo, refs, 0, i);
        err := Some(link.error);
        return;
      }
      ResolvedSnoc(resolve, org, repo, refs, i);
      links := links + [link.value];
      i := i + 1;
    }
    FirstFailureNone(resolve, org, repo, refs, 0);
    assert texts[..|refs|] == texts && refs[..|refs|] == refs;
  }

  /** The state of that loop after `i` references: all resolved, cut out, and their URLs kept. */
  ghost predicate RefsDone(resolve: Resolver, org: string, repo: string, str0: string, refs: seq<Match>,
                           texts: seq<string>, i: nat, str: string, links: seq<string>)
    requires |texts| == |refs| && i <= |refs|
  {
    && (forall j :: 0 <= j < i ==> Answer(resolve, org, repo, refs[j]).Ok?)
    && str == RemoveEach(str0, texts[..i])
    && links == Resolved(resolve, org, repo, refs[..i])
  }

  /** One more resolved reference adds its URL at the end. */
  lemma ResolvedSnoc(resolve: Resolver, org: string, repo: string, ms: seq<Match>, i: nat)
    requires i < |ms| && forall j :: 0 <= j <= i ==> Answer(resolve, org, repo, ms[j]).Ok?
    ensures Resolved(resolve, org, repo, ms[..i + 1])
      == Resolved(resolve, org, repo, ms[..i]) + [Answer(resolve, org, repo, ms[i]).value]
  {
    assert ms[..i + 1][..i] == ms[..i];
  }

  /** The loop of github.go:452-455 over the URL matches `urls`, whose texts are `texts`. */
  method CutEachTarget(s: string, urls: seq<Match>, texts: seq<string>) returns (str: string, links: seq<string>)
    requires |texts| == |urls|
    ensures str == RemoveEach(s, texts) && links == Targets(urls)
  {
    links := [];
    str := s;
    var i := 0;
    while i < |urls|
      invariant 0 <= i <= |urls|
      invariant str == RemoveEach(s, texts[..i])
      invariant links == Targets(urls[..i])
    {
      RemoveEachPrefix(s, texts, i);
      TargetsPrefix(urls, i);
      str := ReplaceFirst(str, texts[i], "");
      links := links + [urls[i].group];
      i := i + 1;
    }
    assert texts[..|urls|] == texts && urls[..|urls|] == urls;
  }

  lemma TargetsPrefix(ms: seq<Match>, i: nat)
    requires i < |ms|
    ensures Targets(ms[..i + 1]) == Targets(ms[..i]) + [ms[i].group]
  {
  }

  /** A failure at `k` after successes from `i` on is the first failure from `i`. */
  lemma {:induction false} FirstFailureAt(resolve: Resolver, org: string, repo: string, ms: seq<Match>, i: nat, k: nat)
    requires i <= k < |ms| && Answer(resolve, org, repo, ms[k]).Err?
    requires forall j :: i <= j < k ==> Answer(resolve, org, repo, ms[j]).Ok?
    ensures FirstFailure(resolve, org, repo, ms, i) == Some(k)
    decreases k - i
  {
    if i < k {
      FirstFailureAt(resolve, org, repo, ms, i + 1, k);
    }
  }

  /** Successes all the way from `i` mean no failure from `i`. */
  lemma {:induction false} FirstFailureNone(resolve: Resolver, org: string, repo: string, ms: seq<Match>, i: nat)
    requires i <= |ms|
    requires forall j :: i <= j < |ms| ==> Answer(resolve, org, repo, ms[j]).Ok?
    ensures FirstFailure(resolve, org, repo, ms, i).None?
    decreases |ms| - i
  {
    if i < |ms| {
      FirstFailureNone(resolve, org, repo, ms, i + 1);
    }
  }

  /**
   * github.go:443-456: the scan fails exactly when some reference cannot be resolved;
   * on success there is one link per reference, in order, then one per URL left in the
   * text; on failure only the references before the failing one have links.
   */
  lemma ParseLinksOutcome(resolve: Resolver, org: string, repo: string, str: string)
    ensures var r := LinksOf(resolve, org, repo, str);
      var refs := FindAll(HashRef, str, 0);
      && (r.err.None? <==> forall j :: 0 <= j < |refs| ==> Answer(resolve, org, repo, refs[j]).Ok?)
      && (r.err.None? ==> |r.links| == |refs| + |FindAll(Url, Strip(HashRef, str, 0), 0)|)
      && (r.err.None? ==> forall j :: 0 <= j < |refs| ==> r.links[j] == Answer(resolve, org, repo, refs[j]).value)
      && (r.err.Some? ==> |r.links| < |refs|)
  {
  }
}
