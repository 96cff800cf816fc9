/**
 * The five regular expressions of markdown.go:70-76, written out as scanners with the
 * leftmost-first semantics of Go's `regexp` package (FindStringSubmatch,
 * FindAllStringSubmatch, MatchString).
 *
 * Each pattern is deterministic at a fixed start position: every greedy repetition is
 * followed by a character its own class excludes, so no backtracking can change the
 * match. For reURL, `\(?` and the optional `[text](` prefix can only be skipped when the
 * character that would start them is absent, because what follows them must start with
 * `[` or `h`.
 */
module Scan {

  import opened Types
  import opened Text

  /** The regular expressions of markdown.go:71-75. */
  datatype Pattern =
    | PriorityTag   // `\[P(\d+)\]\s*`
    | Percent       // `([\d]+)%`
    | Parts         // `([\d]+)/([\d]+)`
    | HashRef       // `#(\d+)`
    | Url           // `\(?(?:\[[^]]+\]\()?(http(?:s)?://[^)\s]+)\)?\)?`

  /** A match: `s[start..end]` is the whole match, `group` and `group2` the submatches. */
  datatype Match = Match(start: nat, end: nat, group: string, group2: string)

  /** `s[m.start..m.end]`: the text FindStringSubmatch reports as `sub[0]`. */
  function MatchText(s: string, m: Match): string
    requires m.start <= m.end <= |s|
  {
    s[m.start..m.end]
  }

  /** End of the run of `\s` characters starting at `i`. */
  function RegexSpaceEnd(s: string, i: nat): (e: nat)
    requires i <= |s|
    ensures i <= e <= |s|
    decreases |s| - i
  {
    if i < |s| && IsRegexSpace(s[i]) then RegexSpaceEnd(s, i + 1) else i
  }

  /** End of the run of `[^)\s]` characters starting at `i`. */
  function UrlCharsEnd(s: string, i: nat): (e: nat)
    requires i <= |s|
    ensures i <= e <= |s|
    ensures forall j :: i <= j < e ==> s[j] != ')' && !IsRegexSpace(s[j])
    decreases |s| - i
  {
    if i < |s| && s[i] != ')' && !IsRegexSpace(s[i]) then UrlCharsEnd(s, i + 1) else i
  }

  /** First `]` at or after `i`. */
  function CloseBracket(s: string, i: nat): (j: Option<nat>)
    requires i <= |s|
    ensures j.Some? ==> i <= j.value < |s| && s[j.value] == ']'
    ensures j.Some? ==> forall k :: i <= k < j.value ==> s[k] != ']'
    decreases |s| - i
  {
    if i == |s| then None else if s[i] == ']' then Some(i) else CloseBracket(s, i + 1)
  }

  /** Where `(?:\[[^]]+\]\()?` leaves off when tried at `p`. */
  function AfterLinkText(s: string, p: nat): (q: nat)
    requires p <= |s|
    ensures p <= q <= |s|
  {
    if p < |s| && s[p] == '[' then
      match CloseBracket(s, p + 1)
      case Some(j) => if j >= p + 2 && j + 1 < |s| && s[j + 1] == '(' then j + 2 else p
      case None => p
    else p
  }

  /** End of `http(?:s)?://` at `q`, if it is there. */
  function SchemeEnd(s: string, q: nat): (u: Option<nat>)
    requires q <= |s|
    ensures u.Some? ==> q < u.value <= |s|
  {
    if HasPrefix(s[q..], "https://") then Some(q + 8)
    else if HasPrefix(s[q..], "http://") then Some(q + 7)
    else None
  }

  /** End of `\)?` at `e`. */
  function OptParen(s: string, e: nat): (r: nat)
    requires e <= |s|
    ensures e <= r <= |s|
  {
    if e < |s| && s[e] == ')' then e + 1 else e
  }

  /** `\[P(\d+)\]\s*` at `i`. */
  function PriorityAt(s: string, i: nat): (r: Option<Match>)
    requires i <= |s|
    ensures r.Some? ==> r.value.start == i < r.value.end <= |s|
  {
    if i + 2 <= |s| && s[i] == '[' && s[i + 1] == 'P' then
      var k := DigitRun(s, i + 2);
      if k >= 1 && i + 2 + k < |s| && s[i + 2 + k] == ']' then
        Some(Match(i, RegexSpaceEnd(s, i + 3 + k), s[i + 2..i + 2 + k], ""))
      else None
    else None
  }

  /** `([\d]+)%` at `i`. */
  function PercentAt(s: string, i: nat): (r: Option<Match>)
    requires i <= |s|
    ensures r.Some? ==> r.value.start == i < r.value.end <= |s|
  {
    var k := DigitRun(s, i);
    if k >= 1 && i + k < |s| && s[i + k] == '%' then Some(Match(i, i + k + 1, s[i..i + k], ""))
    else None
  }

  /** `([\d]+)/([\d]+)` at `i`. */
  function PartsAt(s: string, i: nat): (r: Option<Match>)
    requires i <= |s|
    ensures r.Some? ==> r.value.start == i < r.value.end <= |s|
  {
    var k1 := DigitRun(s, i);
    if k1 >= 1 && i + k1 < |s| && s[i + k1] == '/' then
      var k2 := DigitRun(s, i + k1 + 1);
      if k2 >= 1 then Some(Match(i, i + k1 + 1 + k2, s[i..i + k1], s[i + k1 + 1..i + k1 + 1 + k2]))
      else None
    else None
  }

  /** `#(\d+)` at `i`. */
  function HashRefAt(s: string, i: nat): (r: Option<Match>)
    requires i <= |s|
    ensures r.Some? ==> r.value.start == i < r.value.end <= |s|
  {
    if i < |s| && s[i] == '#' then
      var k := DigitRun(s, i + 1);
      if k >= 1 then Some(Match(i, i + 1 + k, s[i + 1..i + 1 + k], "")) else None
    else None
  }

  /** `\(?(?:\[[^]]+\]\()?(http(?:s)?://[^)\s]+)\)?\)?` at `i`. */
  function UrlAt(s: string, i: nat): (r: Option<Match>)
    requires i <= |s|
    ensures r.Some? ==> r.value.start == i < r.value.end <= |s|
  {
    var p0 := if i < |s| && s[i] == '(' then i + 1 else i;
    var q := AfterLinkText(s, p0);
    match SchemeEnd(s, q)
    case None => None
    case Some(u) =>
      var e := UrlCharsEnd(s, u);
      if e > u then Some(Match(i, OptParen(s, OptParen(s, e)), s[q..e], "")) else None
  }

  /** The match of pattern `p` that starts exactly at `i`, if any. */
  function MatchAt(p: Pattern, s: string, i: nat): (r: Option<Match>)
    requires i <= |s|
    ensures r.Some? ==> r.value.start == i < r.value.end <= |s|
  {
    match p
    case PriorityTag => PriorityAt(s, i)
    case Percent => PercentAt(s, i)
    case Parts => PartsAt(s, i)
    case HashRef => HashRefAt(s, i)
    case Url => UrlAt(s, i)
  }

  /** The numeric submatches of every pattern but reURL are non-empty digit strings. */
  lemma GroupDigits(p: Pattern, s: string, m: Match)
    requires m.start <= |s| && MatchAt(p, s, m.start) == Some(m)
    ensures p != Url ==> m.group != [] && AllDigits(m.group)
    ensures p == Parts ==> m.group2 != [] && AllDigits(m.group2)
  {
  }

  /** FindStringSubmatch from position `from`: the leftmost match. */
  function Find(p: Pattern, s: string, from: nat): (r: Option<Match>)
    requires from <= |s|
    ensures r.Some? ==> from <= r.value.start < r.value.end <= |s|
    ensures r.Some? ==> MatchAt(p, s, r.value.start) == r
    decreases |s| - from
  {
    var here := MatchAt(p, s, from);
    if here.Some? || from == |s| then here else Find(p, s, from + 1)
  }

  /** The match Find reports is the leftmost one, and no match means none at any position. */
  lemma {:induction false} FindLeftmost(p: Pattern, s: string, from: nat)
    requires from <= |s|
    ensures var r := Find(p, s, from);
      && (r.Some? ==> forall j :: from <= j < r.value.start ==> MatchAt(p, s, j).None?)
      && (r.None? ==> forall j :: from <= j <= |s| ==> MatchAt(p, s, j).None?)
    decreases |s| - from
  {
    hide MatchAt;
    if MatchAt(p, s, from).None? && from < |s| {
      FindLeftmost(p, s, from + 1);
    }
  }

  /** FindAllStringSubmatch from position `from`: successive non-overlapping leftmost matches. */
  function FindAll(p: Pattern, s: string, from: nat): (r: seq<Match>)
    requires from <= |s|
    ensures forall k :: 0 <= k < |r| ==> from <= r[k].start < r[k].end <= |s|
    ensures forall k :: 0 <= k < |r| ==> MatchAt(p, s, r[k].start) == Some(r[k])
    ensures forall k :: 0 < k < |r| ==> r[k - 1].end <= r[k].start
    decreases |s| - from
  {
    match Find(p, s, from)
    case None => []
    case Some(m) => [m] + FindAll(p, s, m.end)
  }

  /** MatchString. */
  predicate Matches(p: Pattern, s: string)
  {
    Find(p, s, 0).Some?
  }

  /** The whole-match texts of a list of matches (each `sub[0]`). */
  function Texts(s: string, ms: seq<Match>): (r: seq<string>)
    requires forall k :: 0 <= k < |ms| ==> ms[k].start <= ms[k].end <= |s|
    ensures |r| == |ms|
    ensures forall k :: 0 <= k < |ms| ==> r[k] == MatchText(s, ms[k])
  {
    if ms == [] then [] else [MatchText(s, ms[0])] + Texts(s, ms[1..])
  }

  /** The text with every match of `FindAll(p, s, from)` cut out. */
  function Strip(p: Pattern, s: string, from: nat): string
    requires from <= |s|
    decreases |s| - from
  {
    match Find(p, s, from)
    case None => s[from..]
    case Some(m) => s[from..m.start] + Strip(p, s, m.end)
  }

  /** Text without `[`, `#` or `h`: none of rePriority, reHashRef or reURL can start in it. */
  predicate Plain(s: string)
  {
    forall i :: 0 <= i < |s| ==> s[i] != '[' && s[i] != '#' && s[i] != 'h'
  }

  /** On plain text the three title patterns find nothing, and stripping them keeps the text. */
  lemma {:induction false} PlainFindsNothing(p: Pattern, s: string, from: nat)
    requires Plain(s) && from <= |s| && p != Percent && p != Parts
    ensures Find(p, s, from).None? && FindAll(p, s, from) == [] && Strip(p, s, from) == s[from..]
    decreases |s| - from
  {
    if p == Url {
      var p0 := if from < |s| && s[from] == '(' then from + 1 else from;
      assert AfterLinkText(s, p0) == p0;
      assert p0 < |s| ==> s[p0..][0] == s[p0];
      assert SchemeEnd(s, p0).None?;
    }
    assert MatchAt(p, s, from).None?;
    if from < |s| {
      PlainFindsNothing(p, s, from + 1);
    }
  }

  /** `strings.Replace(s, t, "", 1)` applied for each `t` of `ts` in turn. */
  function RemoveEach(s: string, ts: seq<string>): string
    decreases |ts|
  {
    if ts == [] then s else RemoveEach(ReplaceFirst(s, ts[0], ""), ts[1..])
  }

  /** One more removal at the end: the fold over `ts + [t]` removes `t` last. */
  lemma {:induction false} RemoveEachSnoc(s: string, ts: seq<string>, t: string)
    ensures RemoveEach(s, ts + [t]) == ReplaceFirst(RemoveEach(s, ts), t, "")
    decreases |ts|
  {
    if ts == [] {
      assert [] + [t] == [t];
    } else {
      assert (ts + [t])[0] == ts[0] && (ts + [t])[1..] == ts[1..] + [t];
      RemoveEachSnoc(ReplaceFirst(s, ts[0], ""), ts[1..], t);
    }
  }

  /** Removing the first `i + 1` texts is removing the first `i`, then the next. */
  lemma RemoveEachPrefix(s: string, ts: seq<string>, i: nat)
    requires i < |ts|
    ensures RemoveEach(s, ts[..i + 1]) == ReplaceFirst(RemoveEach(s, ts[..i]), ts[i], "")
  {
    RemoveEachSnoc(s, ts[..i], ts[i]);
    assert ts[..i + 1] == ts[..i] + [ts[i]];
  }

  /** A hash reference `#<digit>` starts at `j`. */
  predicate RefStart(t: string, j: nat)
  {
    j + 1 < |t| && t[j] == '#' && IsDigit(t[j + 1])
  }

  lemma HashRefAtIffRefStart(s: string, j: nat)
    requires j <= |s|
    ensures MatchAt(HashRef, s, j).Some? <==> RefStart(s, j)
  {
  }

  /** A hash-reference match is `#` followed by its digits. */
  lemma {:induction false} HashRefShape(s: string, m: Match)
    requires m.start <= |s| && MatchAt(HashRef, s, m.start) == Some(m)
    ensures MatchText(s, m) == "#" + m.group && m.group != [] && AllDigits(m.group)
    ensures m.end == |s| || !IsDigit(s[m.end])
  {
    assert s[m.start..m.end] == [s[m.start]] + s[m.start + 1..m.end];
  }

  lemma OccursChar(t: string, x: string, j: nat, d: nat)
    requires OccursAt(t, x, j) && d < |x|
    ensures t[j + d] == x[d]
  {
    assert t[j..j + |x|][d] == x[d];
  }

  /** An occurrence in `s[from..]` is one in `acc + s[from..]`, shifted by `acc`. */
  lemma OccursShift(acc: string, s: string, from: nat, x: string, i: nat)
    requires from <= i && OccursAt(s, x, i)
    ensures OccursAt(acc + s[from..], x, |acc| + i - from)
  {
    var t := acc + s[from..];
    var at := |acc| + i - from;
    assert t[at..at + |x|] == s[i..i + |x|];
  }

  /** An occurrence with none before it is the one strings.Index finds. */
  lemma {:induction false} FirstOccurrence(t: string, x: string, at: nat)
    requires OccursAt(t, x, at)
    requires forall j :: 0 <= j < at ==> !OccursAt(t, x, j)
    ensures IndexFrom(t, x, 0) == Some(at)
  {
    var r := IndexFrom(t, x, 0);
  }

  /** ... and the first-occurrence replace cuts out exactly that span. */
  lemma {:induction false} RemoveFirstOccurrence(t: string, x: string, at: nat)
    requires x != []
    requires OccursAt(t, x, at)
    requires forall j :: 0 <= j < at ==> !OccursAt(t, x, j)
    ensures ReplaceFirst(t, x, "") == t[..at] + t[at + |x|..]
  {
    FirstOccurrence(t, x, at);
  }

  /**
   * In `acc + s[from..]`, where `acc` starts no hash reference, the first occurrence of
   * the next match's text is that match itself.
   */
  lemma FirstOccurrenceIsMatch(s: string, from: nat, acc: string, m: Match)
    requires from <= |s|
    requires Find(HashRef, s, from) == Some(m)
    requires forall j :: 0 <= j < |acc| ==> !RefStart(acc + s[from..], j)
    ensures ReplaceFirst(acc + s[from..], MatchText(s, m), "") == acc + s[from..m.start] + s[m.end..]
  {
    ReplaceAtMatch(s, from, acc, m);
    CutAtMatch(s, from, acc, m);
  }

  /** The first occurrence of the next match's text in `acc + s[from..]` is at the match. */
  lemma ReplaceAtMatch(s: string, from: nat, acc: string, m: Match)
    requires from <= |s|
    requires Find(HashRef, s, from) == Some(m)
    requires forall j :: 0 <= j < |acc| ==> !RefStart(acc + s[from..], j)
    ensures var t := acc + s[from..]; var at := |acc| + m.start - from;
      at + m.end - m.start <= |t| &&
      ReplaceFirst(t, MatchText(s, m), "") == t[..at] + t[at + m.end - m.start..]
  {
    var t := acc + s[from..];
    var x := MatchText(s, m);
    var at := |acc| + m.start - from;
    hide Find, MatchAt, ReplaceFirst, IndexFrom;
    assert |x| == m.end - m.start && x != [] && OccursAt(t, x, at) by {
      HashRefShape(s, m);
      assert OccursAt(s, x, m.start);
      OccursShift(acc, s, from, x, m.start);
    }
    assert forall j :: 0 <= j < at ==> !OccursAt(t, x, j) by {
      NoEarlierOccurrence(s, from, acc, m);
    }
    RemoveFirstOccurrence(t, x, at);
  }

  /** Cutting the match's span out of `acc + s[from..]`. */
  lemma CutAtMatch(s: string, from: nat, acc: string, m: Match)
    requires from <= m.start <= m.end <= |s|
    ensures var t := acc + s[from..]; var at := |acc| + m.start - from;
      t[..at] + t[at + m.end - m.start..] == acc + s[from..m.start] + s[m.end..]
  {
    ConcatSlices(acc, s, from, m.start);
    ConcatSlices(acc, s, from, m.end);
  }

  /** Before the next match, `acc + s[from..]` holds no occurrence of its text. */
  lemma NoEarlierOccurrence(s: string, from: nat, acc: string, m: Match)
    requires from <= |s|
    requires Find(HashRef, s, from) == Some(m)
    requires forall j :: 0 <= j < |acc| ==> !RefStart(acc + s[from..], j)
    ensures forall j :: 0 <= j < |acc| + m.start - from ==> !OccursAt(acc + s[from..], MatchText(s, m), j)
  {
    hide Find, MatchAt, HashRefAt, DigitRun;
    var t := acc + s[from..];
    var x := MatchText(s, m);
    HashRefShape(s, m);
    FindLeftmost(HashRef, s, from);
    forall j | 0 <= j < |acc| + m.start - from
      ensures !OccursAt(t, x, j)
    {
      if OccursAt(t, x, j) {
        OccursChar(t, x, j, 0);
        OccursChar(t, x, j, 1);
        assert RefStart(t, j);
        if j >= |acc| {
          var k := j - |acc| + from;
          assert s[k] == t[j] && s[k + 1] == t[j + 1];
          HashRefAtIffRefStart(s, k);
          assert false;
        }
      }
    }
  }

  /** Cutting `acc + s[from..]` at the position of `s[i]`. */
  lemma ConcatSlices(acc: string, s: string, from: nat, i: nat)
    requires from <= i <= |s|
    ensures (acc + s[from..])[..|acc| + i - from] == acc + s[from..i]
    ensures (acc + s[from..])[|acc| + i - from..] == s[i..]
  {
  }

  /**
   * Removing each hash-reference match's text with a first-occurrence replace, in match
   * order, removes exactly the matched spans: the loops of markdown.go:238-244 and
   * github.go:443-451 strip every `#<digits>` and nothing else.
   */
  lemma {:induction false} RemoveEachIsStrip(s: string, from: nat, acc: string)
    requires from <= |s|
    requires forall j :: 0 <= j < |acc| ==> !RefStart(acc + s[from..], j)
    ensures RemoveEach(acc + s[from..], Texts(s, FindAll(HashRef, s, from)))
         == acc + Strip(HashRef, s, from)
    decreases |s| - from
  {
    match Find(HashRef, s, from)
    case None =>
    case Some(m) =>
      var t := acc + s[from..];
      var acc' := acc + s[from..m.start];
      FirstOccurrenceIsMatch(s, from, acc, m);
      FindAllStep(s, from, m, t);
      NoRefStartExtends(s, from, acc, m);
      RemoveEachIsStrip(s, m.end, acc');
      StripStep(s, from, m);
      ConcatAssoc(acc, s[from..m.start], Strip(HashRef, s, m.end));
  }

  lemma ConcatAssoc(a: string, b: string, c: string)
    ensures a + b + c == a + (b + c)
  {
  }

  lemma StripStep(s: string, from: nat, m: Match)
    requires from <= |s|
    requires Find(HashRef, s, from) == Some(m)
    ensures Strip(HashRef, s, from) == s[from..m.start] + Strip(HashRef, s, m.end)
  {
  }

  /** One step of the replace loop: the first text removed is the leftmost match's. */
  lemma FindAllStep(s: string, from: nat, m: Match, t: string)
    requires from <= |s|
    requires Find(HashRef, s, from) == Some(m)
    ensures RemoveEach(t, Texts(s, FindAll(HashRef, s, from)))
         == RemoveEach(ReplaceFirst(t, MatchText(s, m), ""), Texts(s, FindAll(HashRef, s, m.end)))
  {
    var ms := FindAll(HashRef, s, from);
    assert ms == [m] + FindAll(HashRef, s, m.end);
    assert ms[1..] == FindAll(HashRef, s, m.end);
    assert Texts(s, ms)[1..] == Texts(s, FindAll(HashRef, s, m.end));
  }

  /** Cutting out the next match leaves no hash reference starting before the cut. */
  lemma {:induction false} NoRefStartExtends(s: string, from: nat, acc: string, m: Match)
    requires from <= |s|
    requires Find(HashRef, s, from) == Some(m)
    requires forall j :: 0 <= j < |acc| ==> !RefStart(acc + s[from..], j)
    ensures forall j :: 0 <= j < |acc + s[from..m.start]| ==>
      !RefStart(acc + s[from..m.start] + s[m.end..], j)
  {
    HashRefShape(s, m);
    FindLeftmost(HashRef, s, from);
    var t := acc + s[from..];
    var acc' := acc + s[from..m.start];
    var u := acc' + s[m.end..];
    forall j | 0 <= j < |acc'|
      ensures !RefStart(u, j)
    {
      if j + 1 == |acc'| {
        assert j + 1 < |u| ==> u[j + 1] == s[m.end];
      } else if j < |acc| {
        assert u[j] == t[j] && u[j + 1] == t[j + 1];
        assert !RefStart(t, j);
      } else {
        var k := j - |acc| + from;
        assert s[k] == u[j] && s[k + 1] == u[j + 1];
        HashRefAtIffRefStart(s, k);
      }
    }
  }

  /** The text left once every hash reference has been removed: the same as cutting out the spans. */
  lemma RemoveHashRefs(s: string)
    ensures RemoveEach(s, Texts(s, FindAll(HashRef, s, 0))) == Strip(HashRef, s, 0)
  {
    assert [] + s[0..] == s;
    RemoveEachIsStrip(s, 0, []);
  }

  /**
   * The priority tag is removed where it was found: the first occurrence of its text
   * is the leftmost match itself (markdown.go:230-231).
   */
  lemma {:induction false} PriorityRemovedInPlace(s: string)
    requires Find(PriorityTag, s, 0).Some?
    ensures var m := Find(PriorityTag, s, 0).value;
      ReplaceFirst(s, MatchText(s, m), "") == s[..m.start] + s[m.end..]
  {
    var m := Find(PriorityTag, s, 0).value;
    var x := MatchText(s, m);
    assert OccursAt(s, x, m.start);
    FindLeftmost(PriorityTag, s, 0);
    forall j | 0 <= j < m.start
      ensures !OccursAt(s, x, j)
    {
      if OccursAt(s, x, j) {
        PriorityTextMatches(s, m, j);
        assert false;
      }
    }
    RemoveFirstOccurrence(s, x, m.start);
  }

  /** Wherever the text of a priority tag occurs, the pattern matches. */
  lemma PriorityTextMatches(s: string, m: Match, j: nat)
    requires m.start <= |s| && PriorityAt(s, m.start) == Some(m)
    requires OccursAt(s, MatchText(s, m), j)
    ensures MatchAt(PriorityTag, s, j).Some?
  {
    var x := MatchText(s, m);
    var k := |m.group|;
    PriorityShape(s, m);
    OccursChar(s, x, j, 0);
    OccursChar(s, x, j, 1);
    OccursChar(s, x, j, 2 + k);
    forall d | j + 2 <= d < j + 2 + k ensures IsDigit(s[d]) {
      OccursChar(s, x, j, d - j);
    }
    DigitRunExact(s, j + 2, k);
  }

  /** The text of a priority tag: `[P`, the digits of its group, then `]`. */
  lemma PriorityShape(s: string, m: Match)
    requires m.start <= |s| && PriorityAt(s, m.start) == Some(m)
    ensures var x := MatchText(s, m); var k := |m.group|;
      && 1 <= k && 3 + k <= |x| && x[0] == '[' && x[1] == 'P' && x[2 + k] == ']'
      && forall d :: 2 <= d < 2 + k ==> IsDigit(x[d])
  {
    var x := MatchText(s, m);
    var k := |m.group|;
    assert m.group == s[m.start + 2..m.start + 2 + k];
    forall d | 2 <= d < 2 + k ensures IsDigit(x[d]) {
      assert x[d] == m.group[d - 2];
    }
  }

  /** `[P<digits>] ` in front of a text that does not start with `\s` is a priority tag ending at the text. */
  lemma PriorityTagMatch(d: string, t: string)
    requires d != [] && AllDigits(d)
    requires t != [] ==> !IsRegexSpace(t[0])
    ensures Find(PriorityTag, "[P" + d + "] " + t, 0).Some?
    ensures Find(PriorityTag, "[P" + d + "] " + t, 0).value.start == 0
    ensures Find(PriorityTag, "[P" + d + "] " + t, 0).value.end == |d| + 4
    ensures Find(PriorityTag, "[P" + d + "] " + t, 0).value.group == d
  {
    var s := "[P" + d + "] " + t;
    hide Find, DigitRun, RegexSpaceEnd, PriorityAt, AllDigits, IsRegexSpace;
    PriorityTagRuns(d, t);
    PriorityAtRuns(s, |d|);
    FindAtStart(PriorityTag, s);
  }

  /** The bracket, the digit run, its text and the space run of `[P<d>] <t>`. */
  lemma PriorityTagRuns(d: string, t: string)
    requires d != [] && AllDigits(d)
    requires t != [] ==> !IsRegexSpace(t[0])
    ensures var s := "[P" + d + "] " + t;
      && |s| == |d| + 4 + |t| && s[0] == '[' && s[1] == 'P' && s[2 + |d|] == ']'
      && DigitRun(s, 2) == |d| && s[2..2 + |d|] == d && RegexSpaceEnd(s, 3 + |d|) == 4 + |d|
  {
    var s := "[P" + d + "] " + t;
    var k := |d|;
    PriorityTagChars(d, t);
    assert DigitRun(s, 2) == k by {
      DigitRunExact(s, 2, k);
    }
    assert s[2..2 + k] == d by {
      assert forall j :: 0 <= j < k ==> s[2..2 + k][j] == d[j];
    }
    RegexSpaceStop(s, 3 + k);
  }

  /** The characters of `[P<d>] <t>`, position by position. */
  lemma PriorityTagChars(d: string, t: string)
    ensures var s := "[P" + d + "] " + t;
      |s| == |d| + 4 + |t| && s[0] == '[' && s[1] == 'P' && s[2 + |d|] == ']' && s[3 + |d|] == ' '
      && (forall j :: 2 <= j < 2 + |d| ==> s[j] == d[j - 2])
      && (forall j :: 4 + |d| <= j < |s| ==> s[j] == t[j - 4 - |d|])
  {
    var h := "[P" + d + "] ";
    var s := h + t;
    assert s[..|h|] == h && s[|h|..] == t;
    assert forall j :: 2 <= j < 2 + |d| ==> s[j] == h[j] == d[j - 2];
  }

  /** A single `\s` character followed by a non-space (or the end) is a run of one. */
  lemma RegexSpaceStop(s: string, i: nat)
    requires i < |s| && IsRegexSpace(s[i]) && (i + 1 < |s| ==> !IsRegexSpace(s[i + 1]))
    ensures RegexSpaceEnd(s, i) == i + 1
  {
  }

  /** PriorityAt at the start of `s`, given its digit run, the bracket and the single space after it. */
  lemma PriorityAtRuns(s: string, k: nat)
    requires 1 <= k && 4 + k <= |s| && s[0] == '[' && s[1] == 'P' && DigitRun(s, 2) == k
    requires s[2 + k] == ']' && RegexSpaceEnd(s, 3 + k) == 4 + k
    ensures PriorityAt(s, 0) == Some(Match(0, 4 + k, s[2..2 + k], ""))
  {
  }

  /** `<digits>%` is a percentage match of the digits. */
  lemma PercentMatch(d: string)
    requires d != [] && AllDigits(d)
    ensures Find(Percent, d + "%", 0) == Some(Match(0, |d| + 1, d, ""))
  {
    var s := d + "%";
    DigitRunExact(s, 0, |d|);
    assert forall j :: 0 <= j < |d| ==> s[0..|d|][j] == d[j];
    assert s[0..|d|] == d;
    assert PercentAt(s, 0) == Some(Match(0, |d| + 1, d, ""));
  }

  /** `<digits>/<digits>` has no percentage and is a fraction match of the two numbers. */
  lemma PartsMatch(d: string, t: string)
    requires d != [] && AllDigits(d) && t != [] && AllDigits(t)
    ensures Find(Percent, d + "/" + t, 0).None?
    ensures Find(Parts, d + "/" + t, 0).Some?
    ensures Find(Parts, d + "/" + t, 0).value.group == d
    ensures Find(Parts, d + "/" + t, 0).value.group2 == t
  {
    hide Find, PriorityAt, PercentAt, PartsAt, HashRefAt, UrlAt, DigitRun;
    var s := d + "/" + t;
    PartsChars(d, t);
    NoPercent(s);
    DigitRunExact(s, 0, |d|);
    DigitRunToEnd(s, |d| + 1);
    PartsAtRuns(s, |d|, |t|);
    FindAtStart(Parts, s);
  }

  /** The characters and the two halves of `<d>/<t>` for digit strings `d` and `t`. */
  lemma PartsChars(d: string, t: string)
    requires AllDigits(d) && AllDigits(t)
    ensures var s := d + "/" + t;
      && |s| == |d| + 1 + |t| && s[|d|] == '/' && s[0..|d|] == d && s[|d| + 1..|s|] == t
      && (forall j :: 0 <= j < |s| ==> s[j] != '%')
      && (forall j :: 0 <= j < |d| ==> IsDigit(s[j]))
      && (forall j :: |d| + 1 <= j < |s| ==> IsDigit(s[j]))
  {
    var h := d + "/";
    var s := h + t;
    assert s[..|h|] == h && s[|h|..] == t;
    assert s[0..|d|] == d by { assert h[..|d|] == d; }
    forall j | 0 <= j < |s| ensures s[j] != '%' && (j != |d| ==> IsDigit(s[j])) {
      if j < |d| { assert s[j] == d[j]; } else if j > |d| { assert s[j] == t[j - |h|]; }
    }
  }

  /** PartsAt at the start of `s`, given its two digit runs and the slash between them. */
  lemma PartsAtRuns(s: string, k1: nat, k2: nat)
    requires 1 <= k1 && k1 < |s| && DigitRun(s, 0) == k1 && s[k1] == '/'
    requires 1 <= k2 && DigitRun(s, k1 + 1) == k2 && k1 + 1 + k2 == |s|
    ensures PartsAt(s, 0) == Some(Match(0, k1 + 1 + k2, s[0..k1], s[k1 + 1..k1 + 1 + k2]))
  {
  }

  /** A match at the starting position is the leftmost one. */
  lemma FindAtStart(p: Pattern, s: string)
    requires MatchAt(p, s, 0).Some?
    ensures Find(p, s, 0) == MatchAt(p, s, 0)
  {
  }

  /** Without a `%` there is no percentage match. */
  lemma NoPercent(s: string)
    requires forall j :: 0 <= j < |s| ==> s[j] != '%'
    ensures Find(Percent, s, 0).None?
  {
    forall i | 0 <= i <= |s| ensures PercentAt(s, i).None? {
      var k := DigitRun(s, i);
      if i + k < |s| { assert s[i + k] != '%'; }
    }
  }

  /** A run of digits up to the end of the string is what DigitRun measures. */
  lemma {:induction false} DigitRunToEnd(s: string, i: nat)
    requires i <= |s|
    requires forall d :: i <= d < |s| ==> IsDigit(s[d])
    ensures DigitRun(s, i) == |s| - i
    decreases |s| - i
  {
    if i < |s| { DigitRunToEnd(s, i + 1); }
  }

  /** A run of exactly `k` digits followed by a non-digit is what DigitRun measures. */
  lemma {:induction false} DigitRunExact(s: string, i: nat, k: nat)
    requires i + k < |s|
    requires forall d :: i <= d < i + k ==> IsDigit(s[d])
    requires !IsDigit(s[i + k])
    ensures DigitRun(s, i) == k
    decreases k
  {
    if k > 0 { DigitRunExact(s, i + 1, k - 1); }
  }
}
