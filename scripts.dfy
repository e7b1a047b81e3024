/**
 * src/python/upload_assignments.py: reads (section, room, period) rows, groups them by section
 * as (period, room) pairs, and posts each section's sorted pairs to the site's
 * ajax_schedule_class endpoint, after two confirmation prompts.
 */
module UploadAssignments {
  import opened Wrappers
  import opened Text
  import opened Sequences

  /**
   * The exceptions of the script: ValueError when a row does not unpack into three names,
   * UnpackFailed when login's result does not unpack into a browser and a cookie jar.
   */
  datatype PyError = ValueError | UnpackFailed

  /** A (period, room) pair of one section. */
  type Pair = (string, string)

  /** Python's tuple order on two strings: by the first, then by the second. */
  predicate PairLess(p: Pair, q: Pair) {
    Less(p.0, q.0) || (p.0 == q.0 && Less(p.1, q.1))
  }

  lemma {:induction false} PairLessIrreflexive(p: Pair)
    ensures !PairLess(p, p)
  {
    LessIrreflexive(p.0);
    LessIrreflexive(p.1);
  }

  lemma {:induction false} PairLessTransitive(p: Pair, q: Pair, r: Pair)
    requires PairLess(p, q) && PairLess(q, r)
    ensures PairLess(p, r)
  {
    if Less(p.0, q.0) && Less(q.0, r.0) {
      LessTransitive(p.0, q.0, r.0);
    } else if p.0 == q.0 && q.0 == r.0 {
      LessTransitive(p.1, q.1, r.1);
    }
  }

  lemma {:induction false} PairLessTotal(p: Pair, q: Pair)
    ensures PairLess(p, q) || p == q || PairLess(q, p)
  {
    LessTotal(p.0, q.0);
    LessTotal(p.1, q.1);
  }

  /** No later pair is smaller than an earlier one. */
  predicate Sorted(ps: seq<Pair>) {
    forall i, j :: 0 <= i < j < |ps| ==> !PairLess(ps[j], ps[i])
  }

  /** x placed before the first element of s that is not smaller than it. */
  function Insert(x: Pair, s: seq<Pair>): (r: seq<Pair>)
    ensures multiset(r) == multiset(s) + multiset{x}
  {
    if s == [] || !PairLess(s[0], x) then [x] + s
    else
      assert s == [s[0]] + s[1..];
      [s[0]] + Insert(x, s[1..])
  }

  /** list.sort() on the pairs of one section: the same pairs, in ascending order. */
  function Sort(ps: seq<Pair>): (r: seq<Pair>)
    ensures multiset(r) == multiset(ps)
  {
    if ps == [] then []
    else
      assert ps == [ps[0]] + ps[1..];
      Insert(ps[0], Sort(ps[1..]))
  }

  lemma {:induction false} InsertSorted(x: Pair, s: seq<Pair>)
    requires Sorted(s)
    ensures Sorted(Insert(x, s))
  {
    if s == [] || !PairLess(s[0], x) {
      InsertAtFrontSorted(x, s);
    } else {
      SortedTail(s);
      InsertSorted(x, s[1..]);
      var rest := Insert(x, s[1..]);
      HeadBelowInserted(x, s);
      ConsSorted(s[0], rest);
      assert Insert(x, s) == [s[0]] + rest;
    }
  }

  /** x goes first when the first element is not smaller than it. */
  lemma {:induction false} InsertAtFrontSorted(x: Pair, s: seq<Pair>)
    requires Sorted(s) && (s == [] || !PairLess(s[0], x))
    ensures Sorted([x] + s)
  {
    var r := [x] + s;
    forall i, j | 0 <= i < j < |r|
      ensures !PairLess(r[j], r[i])
    {
      assert r[j] == s[j - 1];
      if i == 0 {
        // s[0] <= s[j - 1], so s[j - 1] < x would give s[0] < x
        PairLessTotal(s[0], s[j - 1]);
        if PairLess(s[0], s[j - 1]) && PairLess(s[j - 1], x) {
          PairLessTransitive(s[0], s[j - 1], x);
        }
      } else {
        assert r[i] == s[i - 1];
      }
    }
  }

  /** When x goes further in, the first element stays below everything inserted after it. */
  lemma {:induction false} HeadBelowInserted(x: Pair, s: seq<Pair>)
    requires s != [] && Sorted(s) && PairLess(s[0], x)
    ensures forall j :: 0 <= j < |Insert(x, s[1..])| ==> !PairLess(Insert(x, s[1..])[j], s[0])
  {
    var rest := Insert(x, s[1..]);
    forall j | 0 <= j < |rest|
      ensures !PairLess(rest[j], s[0])
    {
      assert rest[j] in multiset(rest);
      if rest[j] == x {
        PairLessIrreflexive(s[0]);
        if PairLess(x, s[0]) {
          PairLessTransitive(s[0], x, s[0]);
        }
      } else {
        assert rest[j] in multiset(s[1..]);
        var k :| 0 <= k < |s[1..]| && s[1..][k] == rest[j];
        assert s[1..][k] == s[k + 1];
      }
    }
  }

  lemma {:induction false} ConsSorted(h: Pair, rest: seq<Pair>)
    requires Sorted(rest) && forall j :: 0 <= j < |rest| ==> !PairLess(rest[j], h)
    ensures Sorted([h] + rest)
  {
    var r := [h] + rest;
    forall i, j | 0 <= i < j < |r|
      ensures !PairLess(r[j], r[i])
    {
      if i == 0 {
        assert r[j] == rest[j - 1];
      } else {
        assert r[j] == rest[j - 1] && r[i] == rest[i - 1];
      }
    }
  }

  lemma {:induction false} SortSorted(ps: seq<Pair>)
    ensures Sorted(Sort(ps))
  {
    if ps != [] {
      SortSorted(ps[1..]);
      InsertSorted(ps[0], Sort(ps[1..]));
    }
  }

  lemma {:induction false} SortedTail(a: seq<Pair>)
    requires a != [] && Sorted(a)
    ensures Sorted(a[1..]) && multiset(a[1..]) == multiset(a) - multiset{a[0]}
  {
    assert a == [a[0]] + a[1..];
    forall i, j | 0 <= i < j < |a[1..]|
      ensures !PairLess(a[1..][j], a[1..][i])
    {
      assert a[1..][j] == a[j + 1] && a[1..][i] == a[i + 1];
    }
  }

  /** A sorted arrangement of given pairs is unique: Sort gives the order list.sort() gives. */
  lemma {:induction false} SortedArrangementUnique(a: seq<Pair>, b: seq<Pair>)
    requires Sorted(a) && Sorted(b) && multiset(a) == multiset(b)
    ensures a == b
  {
    if a == [] {
      assert |b| == |multiset(b)| == 0;
    } else {
      assert |b| == |multiset(b)| == |a|;
      assert a[0] in multiset(b) && b[0] in multiset(a);
      var k :| 0 <= k < |b| && b[k] == a[0];
      var m :| 0 <= m < |a| && a[m] == b[0];
      PairLessTotal(a[0], b[0]);
      assert a[0] == b[0];
      SortedTail(a);
      SortedTail(b);
      SortedArrangementUnique(a[1..], b[1..]);
      assert a == [a[0]] + a[1..] && b == [b[0]] + b[1..];
    }
  }

  /**
   * The rows read one by one: each must have three fields (section, room, period), and its
   * (period, room) pair is appended to its section's list; the first bad row raises.
   */
  function Grouped(rows: seq<seq<string>>): (r: Result<map<string, seq<Pair>>, PyError>)
    ensures r.Success? ==> forall s :: s in r.value ==> r.value[s] != []
    ensures r.Failure? ==> r.error == ValueError
  {
    if rows == [] then Success(map[])
    else
      match Grouped(rows[..|rows| - 1])
      case Failure(e) => Failure(e)
      case Success(m) =>
        var row := rows[|rows| - 1];
        if |row| != 3 then Failure(ValueError)
        else Success(m[row[0] := (if row[0] in m then m[row[0]] else []) + [(row[2], row[1])]])
  }

  predicate WellFormed(rows: seq<seq<string>>) {
    forall i :: 0 <= i < |rows| ==> |rows[i]| == 3
  }

  /** The (period, room) pairs of section s, in the order of the rows. */
  function Entries(rows: seq<seq<string>>, s: string): (ps: seq<Pair>)
    requires WellFormed(rows)
    ensures |ps| <= |rows|
  {
    if rows == [] then []
    else
      var row := rows[|rows| - 1];
      Entries(rows[..|rows| - 1], s) + (if row[0] == s then [(row[2], row[1])] else [])
  }

  /** Grouping fails exactly when some row does not have three fields. */
  lemma {:induction false} GroupedFailsOnBadRow(rows: seq<seq<string>>)
    ensures Grouped(rows).Success? <==> WellFormed(rows)
  {
    if rows != [] {
      var front := rows[..|rows| - 1];
      GroupedFailsOnBadRow(front);
      assert forall i :: 0 <= i < |front| ==> front[i] == rows[i];
    }
  }

  /**
   * Nothing is dropped or invented: the sections are those of the rows, and each section
   * holds the pairs of its rows, in row order.
   */
  lemma {:induction false} GroupedHoldsEveryRow(rows: seq<seq<string>>)
    requires WellFormed(rows)
    ensures Grouped(rows).Success?
    ensures forall s :: s in Grouped(rows).value <==> Entries(rows, s) != []
    ensures forall s :: s in Grouped(rows).value ==> Grouped(rows).value[s] == Entries(rows, s)
  {
    GroupedFailsOnBadRow(rows);
    if rows != [] {
      var front := rows[..|rows| - 1];
      assert WellFormed(front) by {
        assert forall i :: 0 <= i < |front| ==> front[i] == rows[i];
      }
      GroupedHoldsEveryRow(front);
    }
  }

  /** A pair is in a section's entries exactly when some row of that section carries it. */
  lemma {:induction false} EntriesAreRows(rows: seq<seq<string>>, s: string, p: Pair)
    requires WellFormed(rows)
    ensures p in Entries(rows, s) <==> exists i :: 0 <= i < |rows| && rows[i][0] == s && p == (rows[i][2], rows[i][1])
  {
    if rows != [] {
      var front := rows[..|rows| - 1];
      assert forall i :: 0 <= i < |front| ==> front[i] == rows[i];
      EntriesAreRows(front, s, p);
    }
  }

  /** A failure in a prefix of the rows is a failure of the whole file. */
  lemma {:induction false} GroupedPrefixFails(rows: seq<seq<string>>, k: nat)
    requires k <= |rows| && Grouped(rows[..k]).Failure?
    ensures Grouped(rows) == Grouped(rows[..k])
  {
    if k < |rows| {
      var front := rows[..|rows| - 1];
      assert front[..k] == rows[..k];
      GroupedPrefixFails(front, k);
    } else {
      assert rows[..k] == rows;
    }
  }

  /** The defaultdict filled row by row. */
  method GroupRows(rows: seq<seq<string>>) returns (r: Result<map<string, seq<Pair>>, PyError>)
    ensures r == Grouped(rows)
  {
    var groups: map<string, seq<Pair>> := map[];
    var i := 0;
    while i < |rows|
      invariant 0 <= i <= |rows|
      invariant Grouped(rows[..i]) == Success(groups)
    {
      var row := rows[i];
      assert rows[..i + 1][..i] == rows[..i];
      if |row| != 3 {
        assert rows[..i + 1][i] == row;
        assert Grouped(rows[..i + 1]).Failure?;
        GroupedPrefixFails(rows, i + 1);
        return Failure(ValueError);
      }
      var section, room, period := row[0], row[1], row[2];
      groups := groups[section := (if section in groups then groups[section] else []) + [(period, room)]];
      i := i + 1;
    }
    assert rows[..i] == rows;
    return Success(groups);
  }

  /** One pair as a line: "period,room". */
  function Line(p: Pair): string {
    p.0 + "," + p.1
  }

  /** block_room_assignments: the lines of the pairs joined by newlines. */
  function Block(ps: seq<Pair>): string {
    Join(seq(|ps|, i requires 0 <= i < |ps| => Line(ps[i])), '\n')
  }

  /** The form posted for one section. */
  function Body(token: string, section: string, ps: seq<Pair>): map<string, string> {
    map["csrfmiddlewaretoken" := token, "cls" := section, "action" := "assignreg",
        "block_room_assignments" := Block(Sort(ps))]
  }

  /**
   * The form has exactly the four fields: the token, the section as cls, the action
   * "assignreg", and the section's pairs in sorted order, one "period,room" line each.
   */
  lemma {:induction false} BodyFields(token: string, section: string, ps: seq<Pair>)
    ensures var body := Body(token, section, ps);
            && body.Keys == {"csrfmiddlewaretoken", "cls", "action", "block_room_assignments"}
            && body["csrfmiddlewaretoken"] == token && body["cls"] == section && body["action"] == "assignreg"
            && body["block_room_assignments"] == Block(Sort(ps))
            && Sorted(Sort(ps)) && multiset(Sort(ps)) == multiset(ps)
  {
    SortSorted(ps);
  }

  /** A clean pair: neither field holds a comma or a newline. */
  predicate Clean(p: Pair) {
    NotIn(',', p.0) && NotIn('\n', p.0) && NotIn(',', p.1) && NotIn('\n', p.1)
  }

  /** A line splits back on ',' into its period and its room. */
  lemma {:induction false} LineSplitsBack(p: Pair)
    requires Clean(p)
    ensures NotIn('\n', Line(p))
    ensures Split(Line(p), ',') == [p.0, p.1]
  {
    assert Line(p) == p.0 + [','] + p.1;
    SplitPrefix(p.0, p.1, ',');
    SplitPiece(p.1, ',');
  }

  /**
   * The block of a non-empty list of clean pairs reads back: one line per pair, in order,
   * each splitting into the pair's period and room.
   */
  lemma {:induction false} BlockSplitsBack(ps: seq<Pair>)
    requires ps != [] && forall i :: 0 <= i < |ps| ==> Clean(ps[i])
    ensures |Split(Block(ps), '\n')| == |ps|
    ensures forall i :: 0 <= i < |ps| ==> Split(Split(Block(ps), '\n')[i], ',') == [ps[i].0, ps[i].1]
  {
    var lines := seq(|ps|, i requires 0 <= i < |ps| => Line(ps[i]));
    forall i | 0 <= i < |ps|
      ensures NotIn('\n', lines[i]) && Split(lines[i], ',') == [ps[i].0, ps[i].1]
    {
      LineSplitsBack(ps[i]);
    }
    SplitJoin(lines, '\n');
  }

  /** The endpoint the assignments are posted to (plain http). */
  function UploadUrl(host: string, program: string): string {
    "http://" + host + "/manage/" + program + "/ajax_schedule_class"
  }

  /** A prompt answered "yes" in any letter case. */
  predicate Confirms(answer: string) {
    Lower(answer) == "yes"
  }

  /** What the upload does that others can see. */
  datatype Event = Post(url: string, body: map<string, string>) | Progress(count: nat)

  datatype Outcome = Stopped | Raised(error: PyError) | Finished(scheduled: nat)

  /** The events of posting the n-th section s (n counted from 1). */
  function Step(url: string, token: string, s: string, ps: seq<Pair>, n: nat): (es: seq<Event>)
    ensures |es| >= 1 && es[0] == Post(url, Body(token, s, ps))
  {
    [Post(url, Body(token, s, ps))] + (if n % 100 == 0 then [Progress(n)] else [])
  }

  /** The events of posting the sections in the given order. */
  function Trace(url: string, token: string, groups: map<string, seq<Pair>>, order: seq<string>): seq<Event>
    requires forall s :: s in order ==> s in groups
  {
    if order == [] then []
    else
      var s := order[|order| - 1];
      Trace(url, token, groups, order[..|order| - 1]) + Step(url, token, s, groups[s], |order|)
  }

  function Posts(es: seq<Event>): seq<Event> {
    if es == [] then []
    else Posts(es[..|es| - 1]) + (if es[|es| - 1].Post? then [es[|es| - 1]] else [])
  }

  function ProgressCounts(es: seq<Event>): seq<nat> {
    if es == [] then []
    else ProgressCounts(es[..|es| - 1]) + (match es[|es| - 1] case Progress(n) => [n] case _ => [])
  }

  lemma {:induction false} PostsAppend(a: seq<Event>, b: seq<Event>)
    ensures Posts(a + b) == Posts(a) + Posts(b)
    ensures ProgressCounts(a + b) == ProgressCounts(a) + ProgressCounts(b)
    decreases |b|
  {
    if b != [] {
      assert (a + b)[..|a + b| - 1] == a + b[..|b| - 1];
      PostsAppend(a, b[..|b| - 1]);
    } else {
      assert a + b == a;
    }
  }

  /** A step holds one POST, and a progress line exactly at a multiple of 100. */
  lemma {:induction false} StepEvents(url: string, token: string, s: string, ps: seq<Pair>, n: nat)
    ensures Posts(Step(url, token, s, ps, n)) == [Post(url, Body(token, s, ps))]
    ensures ProgressCounts(Step(url, token, s, ps, n)) == if n % 100 == 0 then [n] else []
  {
    var post := Post(url, Body(token, s, ps));
    assert Posts([post]) == [post] && ProgressCounts([post]) == [] by {
      assert [post][..0] == [];
    }
    if n % 100 == 0 {
      var step := [post, Progress(n)];
      assert step[..1] == [post];
      assert Step(url, token, s, ps, n) == step;
    } else {
      assert Step(url, token, s, ps, n) == [post];
    }
  }

  /** The POST of each section of the order, in that order. */
  function PostsFor(url: string, token: string, groups: map<string, seq<Pair>>, order: seq<string>): (ps: seq<Event>)
    requires forall s :: s in order ==> s in groups
    ensures |ps| == |order|
    ensures forall i :: 0 <= i < |order| ==> ps[i] == Post(url, Body(token, order[i], groups[order[i]]))
  {
    if order == [] then []
    else
      var front := order[..|order| - 1];
      var s := order[|order| - 1];
      assert forall i :: 0 <= i < |front| ==> front[i] == order[i];
      PostsFor(url, token, groups, front) + [Post(url, Body(token, s, groups[s]))]
  }

  /** One POST per section, in the order they were taken, each with that section's form. */
  lemma {:induction false} OnePostPerSection(url: string, token: string, groups: map<string, seq<Pair>>, order: seq<string>)
    requires forall s :: s in order ==> s in groups
    ensures Posts(Trace(url, token, groups, order)) == PostsFor(url, token, groups, order)
  {
    if order != [] {
      var front := order[..|order| - 1];
      var s := order[|order| - 1];
      OnePostPerSection(url, token, groups, front);
      PostsAppend(Trace(url, token, groups, front), Step(url, token, s, groups[s], |order|));
      StepEvents(url, token, s, groups[s], |order|);
    }
  }

  /** The multiples of 100 up to n. */
  function Hundreds(n: nat): (hs: seq<nat>)
    ensures |hs| == n / 100
    ensures forall k :: 0 <= k < |hs| ==> hs[k] == 100 * (k + 1)
  {
    seq(n / 100, k => 100 * (k + 1))
  }

  lemma HundredsNext(n: nat)
    requires n > 0
    ensures Hundreds(n) == Hundreds(n - 1) + (if n % 100 == 0 then [n] else [])
  {
    if n % 100 == 0 {
      assert n / 100 == (n - 1) / 100 + 1;
      assert 100 * ((n - 1) / 100 + 1) == n;
    } else {
      assert n / 100 == (n - 1) / 100;
    }
  }

  /** A progress line after every hundredth section, and no other. */
  lemma {:induction false} ProgressEveryHundred(url: string, token: string, groups: map<string, seq<Pair>>, order: seq<string>)
    requires forall s :: s in order ==> s in groups
    ensures ProgressCounts(Trace(url, token, groups, order)) == Hundreds(|order|)
  {
    if order != [] {
      var front := order[..|order| - 1];
      var s := order[|order| - 1];
      ProgressEveryHundred(url, token, groups, front);
      PostsAppend(Trace(url, token, groups, front), Step(url, token, s, groups[s], |order|));
      StepEvents(url, token, s, groups[s], |order|);
      HundredsNext(|order|);
    }
  }

  /** What login hands back to `(browser, cookie_jar) = login(...)`. */
  datatype LoginReturn = BrowserOnly | BrowserAndJar(csrfToken: string)

  /** data_loader.login as written: it returns the browser alone. */
  function LoginAsWritten(csrfToken: string): LoginReturn {
    BrowserOnly
  }

  /** login as upload_assignments reads it: the browser together with its cookie jar. */
  function LoginWithJar(csrfToken: string): LoginReturn {
    BrowserAndJar(csrfToken)
  }

  /**
   * The unpacking at the head of upload_assignments and the CSRF token then read from the
   * cookie jar; one object does not unpack into two names.
   */
  function SessionToken(v: LoginReturn): (r: Result<string, PyError>)
    ensures r.Success? <==> v.BrowserAndJar?
    ensures r.Success? ==> r.value == v.csrfToken
    ensures r.Failure? ==> r.error == UnpackFailed
  {
    match v
    case BrowserOnly => Failure(UnpackFailed)
    case BrowserAndJar(t) => Success(t)
  }

  /** As written, upload_assignments raises before its first prompt, whatever the session. */
  lemma UploadAsWrittenRaises(csrfToken: string)
    ensures SessionToken(LoginAsWritten(csrfToken)) == Failure(UnpackFailed)
  {
  }

  /** With the jar returned, the token Upload posts is the session's own CSRF token. */
  lemma UploadWithJarHasToken(csrfToken: string)
    ensures SessionToken(LoginWithJar(csrfToken)) == Success(csrfToken)
  {
  }

  /**
   * upload_assignments with the login session's CSRF token and the two answers as inputs and
   * the rows as csv.reader yields them. Nothing is posted unless both answers are "yes" and
   * every row has three fields; then each section is posted once, in the order the
   * dictionary yields them (returned as sections), and scheduled counts them.
   */
  method Upload(host: string, program: string, token: string, firstAnswer: string,
                rows: seq<seq<string>>, secondAnswer: string)
    returns (outcome: Outcome, sections: seq<string>, events: seq<Event>)
    ensures !Confirms(firstAnswer) ==> outcome == Stopped
    ensures Confirms(firstAnswer) && Grouped(rows).Failure? ==> outcome == Raised(ValueError)
    ensures Confirms(firstAnswer) && Grouped(rows).Success? && !Confirms(secondAnswer) ==> outcome == Stopped
    ensures !outcome.Finished? ==> sections == [] && events == []
    ensures outcome.Finished? ==>
              && Confirms(firstAnswer) && Confirms(secondAnswer) && Grouped(rows).Success?
              && Distinct(sections)
              && (forall s :: s in sections <==> s in Grouped(rows).value)
              && outcome.scheduled == |sections| == |Grouped(rows).value|
              && events == Trace(UploadUrl(host, program), token, Grouped(rows).value, sections)
  {
    sections, events := [], [];
    var url := UploadUrl(host, program);
    if Lower(firstAnswer) != "yes" {
      return Stopped, sections, events;
    }
    var grouped := GroupRows(rows);
    if grouped.Failure? {
      return Raised(grouped.error), sections, events;
    }
    var groups := grouped.value;
    if Lower(secondAnswer) != "yes" {
      return Stopped, sections, events;
    }
    var scheduled := 0;
    var left := groups.Keys;
    while left != {}
      invariant left <= groups.Keys
      invariant forall s :: s in sections <==> s in groups.Keys - left
      invariant Distinct(sections)
      invariant scheduled == |sections| && |sections| + |left| == |groups.Keys|
      invariant events == Trace(url, token, groups, sections)
      decreases |left|
    {
      ghost var w := Pick(left);
      var s :| s in left;
      var form := Body(token, s, groups[s]);
      ghost var before := events;
      events := events + [Post(url, form)];
      scheduled := scheduled + 1;
      if scheduled % 100 == 0 {
        events := events + [Progress(scheduled)];
      }
      assert events == before + Step(url, token, s, groups[s], scheduled);
      TakeSection(groups.Keys, left, sections, s);
      sections := sections + [s];
      left := left - {s};
    }
    assert groups.Keys - left == groups.Keys;
    return Finished(scheduled), sections, events;
  }

  /** Taking section s from those left keeps the sections posted and those left apart. */
  lemma {:induction false} TakeSection(keys: set<string>, left: set<string>, sections: seq<string>, s: string)
    requires left <= keys && s in left
    requires forall x :: x in sections <==> x in keys - left
    requires Distinct(sections) && |sections| + |left| == |keys|
    ensures left - {s} <= keys
    ensures forall x :: x in sections + [s] <==> x in keys - (left - {s})
    ensures Distinct(sections + [s]) && |sections + [s]| + |left - {s}| == |keys|
    ensures (sections + [s])[..|sections|] == sections
  {
    assert left == (left - {s}) + {s};
    assert s !in sections;
  }
}

/**
 * src/python/data_loader.py: the program list (slugs of the management links) and the
 * download of a program's data endpoints into a directory.
 */
module DataLoader {
  import opened Text
  import opened Sequences

  /** The endpoints downloaded, in order. */
  const DataUrls: seq<string> := ["ajax_sections", "ajax_rooms", "ajax_resourcetypes", "ajax_times", "ajax_teachers"]

  /** A href's program slug: the '/'-separated pieces between the second and the last. */
  function Slug(href: string): (slug: string)
    ensures |Split(href, '/')| <= 3 ==> slug == ""
  {
    var ps := Split(href, '/');
    if |ps| <= 3 then "" else Join(ps[2..|ps| - 1], '/')
  }

  /** The slugs of the anchors whose href ends with "/main", in document order. */
  function ProgramSlugs(hrefs: seq<string>): (slugs: seq<string>)
    ensures |slugs| <= |hrefs|
  {
    if hrefs == [] then []
    else (if EndsWith(hrefs[0], "/main") then [Slug(hrefs[0])] else []) + ProgramSlugs(hrefs[1..])
  }

  /** The printed lines: " - " and a slug, last slug first. */
  function Listing(slugs: seq<string>): seq<string> {
    if slugs == [] then [] else Listing(slugs[1..]) + [" - " + slugs[0]]
  }

  lemma {:induction false} JoinSnoc(ps: seq<string>, x: string, sep: char)
    requires ps != []
    ensures Join(ps + [x], sep) == Join(ps, sep) + [sep] + x
  {
    if |ps| > 1 {
      assert (ps + [x])[1..] == ps[1..] + [x];
      JoinSnoc(ps[1..], x, sep);
    }
  }

  lemma {:induction false} JoinCons(x: string, ps: seq<string>, sep: char)
    requires ps != []
    ensures Join([x] + ps, sep) == x + [sep] + Join(ps, sep)
  {
    assert ([x] + ps)[1..] == ps;
  }

  /**
   * A management link "/<section>/<slug>/main", whose slug may itself hold '/', is kept and
   * yields that slug.
   */
  lemma {:induction false} SlugOfMainLink(href: string, section: string, parts: seq<string>)
    requires NotIn('/', section) && parts != [] && forall i :: 0 <= i < |parts| ==> NotIn('/', parts[i])
    requires href == "/" + section + "/" + Join(parts, '/') + "/main"
    ensures EndsWith(href, "/main") && Slug(href) == Join(parts, '/')
  {
    var tail := parts + ["main"];
    var ps := ["", section] + tail;
    JoinSnoc(parts, "main", '/');
    JoinCons(section, tail, '/');
    JoinCons("", [section] + tail, '/');
    assert ps == [""] + ([section] + tail);
    assert Join(ps, '/') == href;
    PiecesWithoutSep(section, parts, ps);
    SplitJoin(ps, '/');
    assert ps[2..|ps| - 1] == parts;
    assert href[|href| - 5..] == "/main";
  }

  lemma {:induction false} PiecesWithoutSep(section: string, parts: seq<string>, ps: seq<string>)
    requires NotIn('/', section) && forall i :: 0 <= i < |parts| ==> NotIn('/', parts[i])
    requires ps == ["", section] + parts + ["main"]
    ensures forall i :: 0 <= i < |ps| ==> NotIn('/', ps[i])
  {
    forall i | 0 <= i < |ps|
      ensures NotIn('/', ps[i])
    {
      if i == 0 {
        assert ps[i] == "";
      } else if i == 1 {
        assert ps[i] == section;
      } else if i < |ps| - 1 {
        assert ps[i] == parts[i - 2];
      } else {
        assert ps[i] == "main";
      }
    }
  }

  /** Only links ending with "/main" are listed, each with its slug, none twice or dropped. */
  lemma {:induction false} ProgramSlugsKept(hrefs: seq<string>, slug: string)
    ensures slug in ProgramSlugs(hrefs) <==>
              exists i :: 0 <= i < |hrefs| && EndsWith(hrefs[i], "/main") && Slug(hrefs[i]) == slug
  {
    if hrefs != [] {
      ProgramSlugsKept(hrefs[1..], slug);
      assert forall i :: 0 <= i < |hrefs[1..]| ==> hrefs[1..][i] == hrefs[i + 1];
      if exists i :: 0 <= i < |hrefs| && EndsWith(hrefs[i], "/main") && Slug(hrefs[i]) == slug {
        var i :| 0 <= i < |hrefs| && EndsWith(hrefs[i], "/main") && Slug(hrefs[i]) == slug;
        if i > 0 {
          assert hrefs[1..][i - 1] == hrefs[i];
        }
      }
    }
  }

  /** One anchor: its slug when its href ends with "/main", nothing otherwise. */
  lemma OneAnchorSlugs(href: string)
    ensures EndsWith(href, "/main") ==> ProgramSlugs([href]) == [Slug(href)]
    ensures !EndsWith(href, "/main") ==> ProgramSlugs([href]) == []
  {
    assert [href][1..] == [];
  }

  /**
   * The slugs of two runs of anchors are those of the first run followed by those of the
   * second: the listing keeps document order and each kept anchor contributes one slug.
   */
  lemma {:induction false} ProgramSlugsAppend(a: seq<string>, b: seq<string>)
    ensures ProgramSlugs(a + b) == ProgramSlugs(a) + ProgramSlugs(b)
  {
    if a != [] {
      assert (a + b)[1..] == a[1..] + b;
      ProgramSlugsAppend(a[1..], b);
    } else {
      assert a + b == b;
    }
  }

  /** The listing is the slugs in reverse document order. */
  lemma {:induction false} ListingReversed(slugs: seq<string>)
    ensures |Listing(slugs)| == |slugs|
    ensures forall i :: 0 <= i < |slugs| ==> Listing(slugs)[i] == " - " + slugs[|slugs| - 1 - i]
  {
    if slugs != [] {
      ListingReversed(slugs[1..]);
      forall i | 0 <= i < |slugs|
        ensures Listing(slugs)[i] == " - " + slugs[|slugs| - 1 - i]
      {
        if i < |slugs| - 1 {
          assert slugs[1..][|slugs| - 2 - i] == slugs[|slugs| - 1 - i];
        }
      }
    }
  }

  /** 'https://%s/manage/%s/%s' for one endpoint. */
  function DataUrl(host: string, program: string, name: string): string {
    "https://" + host + "/manage/" + program + "/" + name
  }

  /** The URL's path pieces are the host, "manage", the program and the endpoint. */
  lemma {:induction false} DataUrlPieces(host: string, program: string, name: string)
    requires NotIn('/', host) && NotIn('/', program) && NotIn('/', name)
    ensures Split(DataUrl(host, program, name), '/') == ["https:", "", host, "manage", program, name]
  {
    var ps := ["https:", "", host, "manage", program, name];
    UrlPiecesClean(host, program, name, ps);
    SplitJoin(ps, '/');
    UrlJoin(host, program, name, ps);
  }

  lemma {:induction false} UrlPiecesClean(host: string, program: string, name: string, ps: seq<string>)
    requires NotIn('/', host) && NotIn('/', program) && NotIn('/', name)
    requires ps == ["https:", "", host, "manage", program, name]
    ensures ps != [] && forall i :: 0 <= i < |ps| ==> NotIn('/', ps[i])
  {
    assert NotIn('/', "https:") && NotIn('/', "") && NotIn('/', "manage");
  }

  lemma {:induction false} UrlJoin(host: string, program: string, name: string, ps: seq<string>)
    requires ps == ["https:", "", host, "manage", program, name]
    ensures Join(ps, '/') == DataUrl(host, program, name)
  {
    JoinCons(program, [name], '/');
    JoinCons("manage", ps[4..], '/');
    JoinCons(host, ps[3..], '/');
    JoinCons("", ps[2..], '/');
    JoinCons("https:", ps[1..], '/');
    assert ps == ["https:"] + ps[1..] && ps[1..] == [""] + ps[2..] && ps[2..] == [host] + ps[3..];
    assert ps[3..] == ["manage"] + ps[4..] && ps[4..] == [program, name];
    assert Join([name], '/') == name;
    var url := "https:" + "/" + ("" + "/" + (host + "/" + ("manage" + "/" + (program + "/" + name))));
    assert Join(ps, '/') == url;
    assert url == DataUrl(host, program, name);
  }

  /** os.path.join(dir, name) for a name that does not start with '/'. */
  function PathJoin(dir: string, name: string): string {
    if name != [] && name[0] == '/' then name
    else if dir == [] || dir[|dir| - 1] == '/' then dir + name
    else dir + "/" + name
  }

  /** The length of the longest prefix of s that ends with '/' (0 when there is none). */
  function HeadLength(s: string): (n: nat)
    ensures n <= |s|
    ensures n > 0 ==> s[n - 1] == '/'
    ensures forall i :: n <= i < |s| ==> s[i] != '/'
  {
    if s == [] then 0
    else if s[|s| - 1] == '/' then |s|
    else HeadLength(s[..|s| - 1])
  }

  function StripSlashes(s: string): (r: string)
    ensures |r| <= |s| && r == s[..|r|]
    ensures r == [] || r[|r| - 1] != '/'
  {
    if s != [] && s[|s| - 1] == '/' then StripSlashes(s[..|s| - 1]) else s
  }

  /** os.path.dirname: the head up to the last '/', without its trailing slashes unless only slashes. */
  function DirName(path: string): string {
    var head := path[..HeadLength(path)];
    if StripSlashes(head) != [] then StripSlashes(head) else head
  }

  /** The downloaded file lands in the target directory itself. */
  lemma {:induction false} FileInTargetDir(dir: string, name: string)
    requires dir != [] && dir[|dir| - 1] != '/' && NotIn('/', name)
    ensures PathJoin(dir, name) == dir + "/" + name
    ensures DirName(PathJoin(dir, name)) == dir
  {
    var p := dir + "/" + name;
    assert p[|dir|] == '/';
    assert HeadLength(p) == |dir| + 1;
    assert p[..|dir| + 1] == dir + "/";
    assert (dir + "/")[..|dir|] == dir;
    assert StripSlashes(dir + "/") == StripSlashes(dir) == dir;
  }

  /** Different endpoint names are written to different files. */
  lemma {:induction false} DistinctFiles(dir: string, a: string, b: string)
    requires NotIn('/', a) && NotIn('/', b) && a != [] && b != [] && a != b
    ensures PathJoin(dir, a) != PathJoin(dir, b)
  {
    var pre := if dir == [] || dir[|dir| - 1] == '/' then dir else dir + "/";
    assert PathJoin(dir, a) == pre + a && PathJoin(dir, b) == pre + b;
    assert (pre + a)[|pre|..] == a;
    assert (pre + b)[|pre|..] == b;
  }

  /** The steps of a download that others can see. */
  datatype Action = Fetch(url: string) | MakeDirs(dir: string) | Write(file: string, contents: string)

  /**
   * One endpoint: fetch it, create the file's directory (an error there is ignored and
   * changes nothing), and write the page to the directory joined with the endpoint name.
   */
  function EndpointActions(host: string, program: string, dir: string, fetch: string -> string, name: string): (acts: seq<Action>)
    ensures |acts| == 3
  {
    var url := DataUrl(host, program, name);
    var file := PathJoin(dir, name);
    [Fetch(url), MakeDirs(DirName(file)), Write(file, fetch(url))]
  }

  /** The endpoints handled one after another. */
  function Downloads(host: string, program: string, dir: string, fetch: string -> string, names: seq<string>): (acts: seq<Action>)
    ensures |acts| == 3 * |names|
  {
    if names == [] then []
    else Downloads(host, program, dir, fetch, names[..|names| - 1]) + EndpointActions(host, program, dir, fetch, names[|names| - 1])
  }

  /** The actions of the i-th endpoint sit at positions 3i, 3i + 1 and 3i + 2. */
  lemma {:induction false} DownloadsInOrder(host: string, program: string, dir: string, fetch: string -> string, names: seq<string>)
    ensures forall i :: 0 <= i < |names| ==>
              Downloads(host, program, dir, fetch, names)[3 * i..3 * i + 3] == EndpointActions(host, program, dir, fetch, names[i])
  {
    if names != [] {
      var front := names[..|names| - 1];
      DownloadsInOrder(host, program, dir, fetch, front);
      var before := Downloads(host, program, dir, fetch, front);
      var last := EndpointActions(host, program, dir, fetch, names[|names| - 1]);
      forall i | 0 <= i < |names|
        ensures (before + last)[3 * i..3 * i + 3] == EndpointActions(host, program, dir, fetch, names[i])
      {
        if i < |front| {
          assert (before + last)[3 * i..3 * i + 3] == before[3 * i..3 * i + 3];
          assert before[3 * i..3 * i + 3] == EndpointActions(host, program, dir, fetch, front[i]);
          assert front[i] == names[i];
        } else {
          assert 3 * i == |before| && i == |names| - 1;
          assert (before + last)[|before|..|before| + 3] == last;
        }
      }
    }
  }

  /** load_data, with the logged-in fetch as a function from URL to page. */
  method LoadData(host: string, program: string, targetDir: string, fetch: string -> string)
    returns (actions: seq<Action>)
    ensures actions == Downloads(host, program, targetDir, fetch, DataUrls)
  {
    actions := [];
    for k := 0 to |DataUrls|
      invariant actions == Downloads(host, program, targetDir, fetch, DataUrls[..k])
    {
      var url := DataUrl(host, program, DataUrls[k]);
      var result := fetch(url);
      var fileName := PathJoin(targetDir, DataUrls[k]);
      var dirName := DirName(fileName);
      actions := actions + [Fetch(url), MakeDirs(dirName), Write(fileName, result)];
      DownloadsSnoc(host, program, targetDir, fetch, DataUrls, k);
    }
    assert DataUrls[..|DataUrls|] == DataUrls;
  }

  lemma DownloadsSnoc(host: string, program: string, dir: string, fetch: string -> string, names: seq<string>, k: nat)
    requires k < |names|
    ensures Downloads(host, program, dir, fetch, names[..k + 1]) ==
              Downloads(host, program, dir, fetch, names[..k]) + EndpointActions(host, program, dir, fetch, names[k])
  {
    assert names[..k + 1][..k] == names[..k];
  }

  /** The five endpoint files are distinct, so no download overwrites another. */
  lemma {:induction false} NoFileOverwritten(dir: string)
    ensures forall i, j :: 0 <= i < j < |DataUrls| ==> PathJoin(dir, DataUrls[i]) != PathJoin(dir, DataUrls[j])
  {
    forall i, j | 0 <= i < j < |DataUrls|
      ensures PathJoin(dir, DataUrls[i]) != PathJoin(dir, DataUrls[j])
    {
      DistinctFiles(dir, DataUrls[i], DataUrls[j]);
    }
  }
}
