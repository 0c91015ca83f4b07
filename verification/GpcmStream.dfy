/**
  Reassembly of connection manager messages, which arrive in fragments of any size and end with a
  delimiter. `dispatched` lists the messages handed to the handlers, in order.
 */
module GpcmStream {
  import opened Bytes

  const DELIMITER: Delimiter := "\\final\\"
  const LIMIT: nat := 0x4000

  /** Starts and ends with the same character and holds it nowhere else, so it overlaps itself there only. */
  ghost predicate OneBorder(d: string) {
    |d| >= 2 && d[0] == d[|d| - 1] && forall j {:trigger d[j]} :: 0 < j < |d| - 1 ==> d[j] != d[0]
  }

  type Delimiter = d: string | OneBorder(d) witness "\\final\\"

  // ----- Splitting after every delimiter -----

  predicate DelimiterAt(d: Delimiter, s: string, i: int) {
    0 <= i <= |s| - |d| && s[i..i + |d|] == d
  }

  predicate EndsWithDelimiter(d: Delimiter, s: string) {
    DelimiterAt(d, s, |s| - |d|)
  }

  function Find(d: Delimiter, s: string, i: nat): (r: Option<nat>)
    ensures r.Some? ==> i <= r.value && DelimiterAt(d, s, r.value) && forall k :: i <= k < r.value ==> !DelimiterAt(d, s, k)
    ensures r.None? ==> forall k :: i <= k ==> !DelimiterAt(d, s, k)
    decreases |s| - i
  {
    if i + |d| > |s| then None
    else if DelimiterAt(d, s, i) then Some(i)
    else Find(d, s, i + 1)
  }

  /** Cuts after each delimiter, looking for the next one behind the last; what is left comes last. */
  function SplitAfter(d: Delimiter, s: string): seq<string>
    decreases |s|
  {
    var at := Find(d, s, 0);
    if at.None? then [s]
    else [s[..at.value + |d|]] + SplitAfter(d, s[at.value + |d|..])
  }

  // ----- One fragment -----

  datatype Session = Session(readBuffer: string, dispatched: seq<string>)

  /** The nonempty messages up to the first whose handler panics, and whether one does. */
  function Visited(messages: seq<string>, panics: string -> bool): (seq<string>, bool) {
    if messages == [] then ([], false)
    else if messages[0] == "" then Visited(messages[1..], panics)
    else if panics(messages[0]) then ([messages[0]], true)
    else
      var (rest, failed) := Visited(messages[1..], panics);
      ([messages[0]] + rest, failed)
  }

  /** A fragment that would overflow is dropped; a panic leaves the buffer as it is. */
  function Received(d: Delimiter, s: Session, data: string, panics: string -> bool): Session {
    if |s.readBuffer| + |data| > LIMIT then s
    else
      var buffer := s.readBuffer + data;
      if !EndsWithDelimiter(d, buffer) then s.(readBuffer := buffer)
      else
        var (visited, failed) := Visited(SplitAfter(d, buffer), panics);
        Session(if failed then buffer else "", s.dispatched + visited)
  }

  function Receiving(d: Delimiter, s: Session, fragments: seq<string>, panics: string -> bool): Session
    decreases |fragments|
  {
    if fragments == [] then s else Receiving(d, Received(d, s, fragments[0], panics), fragments[1..], panics)
  }

  function Flat(parts: seq<string>): string {
    if parts == [] then "" else parts[0] + Flat(parts[1..])
  }

  // ----- Messages -----

  /** Ends with the delimiter and holds it nowhere else. */
  ghost predicate IsMessage(d: Delimiter, m: string) {
    EndsWithDelimiter(d, m) && forall i {:trigger DelimiterAt(d, m, i)} :: i < |m| - |d| ==> !DelimiterAt(d, m, i)
  }

  ghost predicate AllMessages(d: Delimiter, ms: seq<string>) {
    forall k :: 0 <= k < |ms| ==> IsMessage(d, ms[k])
  }

  /** Could complete a delimiter with the last character of the message before it. */
  predicate StartsOverlapping(d: Delimiter, m: string) {
    d[1..] <= m
  }

  /** No message can be mistaken together with the one before it, unless both cannot be buffered at once. */
  ghost predicate Separable(d: Delimiter, ms: seq<string>) {
    forall k :: 1 <= k < |ms| && StartsOverlapping(d, ms[k]) ==> |ms[k - 1]| + |d| - 1 > LIMIT
  }

  lemma {:induction false} DelimiterInFirst(d: Delimiter, m: string, rest: string, k: nat)
    requires IsMessage(d, m) && k <= |m| - |d|
    ensures DelimiterAt(d, m + rest, k) <==> k == |m| - |d|
  {
    assert (m + rest)[k..k + |d|] == m[k..k + |d|];
    if k < |m| - |d| {
      assert !DelimiterAt(d, m, k);
    }
  }

  lemma {:induction false} MessageFirst(d: Delimiter, m: string, rest: string)
    requires IsMessage(d, m)
    ensures Find(d, m + rest, 0) == Some(|m| - |d|)
  {
    DelimiterInFirst(d, m, rest, |m| - |d|);
    var r := Find(d, m + rest, 0);
    if r.value <= |m| - |d| {
      DelimiterInFirst(d, m, rest, r.value);
    }
  }

  lemma {:induction false} SplitsFirst(d: Delimiter, m: string, rest: string)
    requires IsMessage(d, m)
    ensures SplitAfter(d, m + rest) == [m] + SplitAfter(d, rest)
  {
    MessageFirst(d, m, rest);
    assert (m + rest)[..|m|] == m && (m + rest)[|m|..] == rest;
  }

  lemma {:induction false} FirstOf(ms: seq<string>, tail: string)
    requires ms != []
    ensures Flat(ms) + tail == ms[0] + (Flat(ms[1..]) + tail) && [ms[0]] + (ms[1..] + [tail]) == ms + [tail]
  {
  }

  lemma {:induction false} SplitsIntoMessages(d: Delimiter, ms: seq<string>, tail: string)
    requires AllMessages(d, ms) && |tail| < |d|
    ensures SplitAfter(d, Flat(ms) + tail) == ms + [tail]
    decreases |ms|
  {
    if ms == [] {
      assert Flat(ms) + tail == tail;
    } else {
      SplitsIntoMessages(d, ms[1..], tail);
      SplitsFirst(d, ms[0], Flat(ms[1..]) + tail);
      FirstOf(ms, tail);
    }
  }

  /** A delimiter that is completed behind a whole message, but not yet within the next one. */
  lemma {:induction false} Straddle(d: Delimiter, m: string, part: string)
    requires EndsWithDelimiter(d, m) && EndsWithDelimiter(d, m + part) && 0 < |part| < |d|
    ensures part == d[1..]
  {
    var s, j := m + part, |part|;
    var tail := s[|s| - |d|..];
    assert tail[0] == d[0] && tail[0] == m[|m| - |d|..][j] == d[j];
    assert j == |d| - 1;
    assert part == tail[1..];
  }

  lemma {:induction false} NotInside(d: Delimiter, m: string, b: string)
    requires IsMessage(d, m) && b <= m && |b| < |m|
    ensures !EndsWithDelimiter(d, b)
  {
    var at := |b| - |d|;
    assert !DelimiterAt(d, m, at);
    if at >= 0 {
      assert b[at..] == m[at..at + |d|];
    }
  }

  /** Past the first message `m`, what ends with a delimiter still does without it. */
  lemma {:induction false} PastFirst(d: Delimiter, m: string, part: string, next: string)
    requires EndsWithDelimiter(d, m) && EndsWithDelimiter(d, m + part) && part != ""
    requires StartsOverlapping(d, next) ==> |part| != |d| - 1
    requires |part| < |d| ==> part <= next
    ensures EndsWithDelimiter(d, part)
  {
    if |part| < |d| {
      Straddle(d, m, part);
    } else {
      assert part[|part| - |d|..] == (m + part)[|m + part| - |d|..];
    }
  }

  lemma {:induction false} PrefixOfFirst(b: string, m: string, rest: string)
    requires b <= m + rest
    ensures |b| < |m| ==> b <= m
    ensures |b| >= |m| ==> b == m + b[|m|..] && b[|m|..] <= rest
  {
  }

  lemma {:induction false} TakeFirst(ms: seq<string>, k: nat)
    requires 1 <= |ms| && k < |ms|
    ensures Flat(ms[..k + 1]) == ms[0] + Flat(ms[1..][..k])
  {
    assert ms[..k + 1][1..] == ms[1..][..k];
  }

  /** Whatever is buffered and ends with a delimiter on the way through the stream ends at a message boundary. */
  lemma {:induction false} EndIsBoundary(d: Delimiter, ms: seq<string>, b: string) returns (k: nat)
    requires AllMessages(d, ms) && Separable(d, ms) && b <= Flat(ms) && |b| <= LIMIT && EndsWithDelimiter(d, b)
    ensures 1 <= k <= |ms| && b == Flat(ms[..k])
    decreases |ms|
  {
    var m, rest := ms[0], Flat(ms[1..]);
    PrefixOfFirst(b, m, rest);
    if |b| < |m| {
      NotInside(d, m, b);
      assert false;
    }
    var part := b[|m|..];
    if part == "" {
      k := 1;
      assert ms[..1] == [m];
    } else {
      var more := ms[1..];
      PrefixOfFirst(part, more[0], Flat(more[1..]));
      PastFirst(d, m, part, more[0]);
      k := EndIsBoundary(d, more, part);
      TakeFirst(ms, k);
      k := k + 1;
    }
  }

  // ----- Delivery -----

  predicate Calm(ms: seq<string>, panics: string -> bool) {
    forall k :: 0 <= k < |ms| ==> !panics(ms[k])
  }

  lemma {:induction false} AllVisited(d: Delimiter, ms: seq<string>, tail: string, panics: string -> bool)
    requires AllMessages(d, ms) && Calm(ms, panics)
    ensures Visited(ms + [tail], panics) == (if tail == "" then ms else ms + [tail], tail != "" && panics(tail))
    decreases |ms|
  {
    if ms == [] {
      var last: seq<string> := [tail];
      assert ms + [tail] == last && last[1..] == [] && [tail] + [] == last;
    } else {
      assert (ms + [tail])[0] == ms[0] && (ms + [tail])[1..] == ms[1..] + [tail];
      assert IsMessage(d, ms[0]);
      AllVisited(d, ms[1..], tail, panics);
      assert [ms[0]] + ms[1..] == ms && [ms[0]] + (ms[1..] + [tail]) == ms + [tail];
    }
  }

  lemma {:induction false} FlatAppend(a: seq<string>, b: seq<string>)
    ensures Flat(a + b) == Flat(a) + Flat(b)
    decreases |a|
  {
    if a == [] {
      assert a + b == b;
    } else {
      FlatAppend(a[1..], b);
      assert (a + b)[1..] == a[1..] + b;
    }
  }

  lemma {:induction false} FlatEnds(d: Delimiter, ms: seq<string>)
    requires AllMessages(d, ms) && ms != []
    ensures EndsWithDelimiter(d, Flat(ms))
  {
    var n := |ms| - 1;
    FlatAppend(ms[..n], [ms[n]]);
    assert ms == ms[..n] + [ms[n]] && Flat([ms[n]]) == ms[n];
    var s := Flat(ms);
    assert s[|s| - |d|..] == ms[n][|ms[n]| - |d|..];
  }

  /** A buffer of messages and a short tail is dispatched as just those. */
  lemma {:induction false} Dispatching(d: Delimiter, s: Session, data: string, ms: seq<string>, tail: string, panics: string -> bool)
    requires AllMessages(d, ms) && Calm(ms, panics) && |tail| < |d| && |s.readBuffer| + |data| <= LIMIT
    requires s.readBuffer + data == Flat(ms) + tail && EndsWithDelimiter(d, s.readBuffer + data)
    ensures Received(d, s, data, panics).dispatched == s.dispatched + if tail == "" then ms else ms + [tail]
    ensures tail == "" ==> Received(d, s, data, panics).readBuffer == ""
  {
    SplitsIntoMessages(d, ms, tail);
    AllVisited(d, ms, tail, panics);
  }

  /** A fragment that completes a message hands over all complete ones and empties the buffer. */
  lemma {:induction false} BoundaryStep(d: Delimiter, s: Session, data: string, ms: seq<string>, panics: string -> bool) returns (k: nat)
    requires Orderly(d, ms, panics) && |s.readBuffer + data| <= LIMIT
    requires s.readBuffer + data <= Flat(ms) && EndsWithDelimiter(d, s.readBuffer + data)
    ensures k <= |ms| && Received(d, s, data, panics) == Session("", s.dispatched + ms[..k])
    ensures s.readBuffer + data == Flat(ms[..k])
  {
    var b := s.readBuffer + data;
    k := EndIsBoundary(d, ms, b);
    assert b + "" == b;
    Dispatching(d, s, data, ms[..k], "", panics);
  }

  /** No fragment overflows the buffer it meets. */
  ghost predicate Fits(d: Delimiter, s: Session, fragments: seq<string>, panics: string -> bool)
    decreases |fragments|
  {
    fragments == [] ||
    (|s.readBuffer| + |fragments[0]| <= LIMIT && Fits(d, Received(d, s, fragments[0], panics), fragments[1..], panics))
  }

  /** Of `ms`, the first `k` messages are dispatched and the buffer holds what was received past them. */
  ghost predicate Reached(d: Delimiter, from: Session, received: string, ms: seq<string>, k: nat, s: Session)
    requires k <= |ms|
  {
    && s.dispatched == from.dispatched + ms[..k] && !EndsWithDelimiter(d, s.readBuffer)
    && Flat(ms[..k]) + s.readBuffer == from.readBuffer + received
  }

  lemma {:induction false} FlatFrom(ms: seq<string>, k: nat)
    requires k <= |ms|
    ensures Flat(ms) == Flat(ms[..k]) + Flat(ms[k..])
  {
    FlatAppend(ms[..k], ms[k..]);
    assert ms == ms[..k] + ms[k..];
  }

  /** Cancels what both strings start with. */
  lemma {:induction false} PastPrefix(a: string, b: string, c: string)
    requires a + b <= a + c
    ensures b <= c
  {
    assert (a + b)[|a|..] == b && (a + c)[|a|..] == c;
  }

  lemma {:induction false} TakeMore(ms: seq<string>, k: nat, j: nat)
    requires k <= |ms| && j <= |ms| - k
    ensures ms[..k + j] == ms[..k] + ms[k..][..j] && Flat(ms[..k + j]) == Flat(ms[..k]) + Flat(ms[k..][..j])
  {
    FlatAppend(ms[..k], ms[k..][..j]);
    assert ms[..k + j] == ms[..k] + ms[k..][..j];
  }

  lemma {:induction false} Regrouped(f: string, g: string, buffer: string, mid: string, before: string, data: string, rest: string)
    requires f + mid == before + data && g + buffer == mid + rest
    ensures f + g + buffer == before + (data + rest)
  {
    assert f + g + buffer == f + (g + buffer);
    assert f + (mid + rest) == f + mid + rest;
    assert before + data + rest == before + (data + rest);
  }

  lemma {:induction false} ReachedLater(d: Delimiter, s: Session, data: string, mid: Session, rest: string, ms: seq<string>, k: nat, j: nat, end: Session)
    requires k <= |ms| && j <= |ms| - k && Reached(d, s, data, ms, k, mid) && Reached(d, mid, rest, ms[k..], j, end)
    ensures Reached(d, s, data + rest, ms, k + j, end)
  {
    TakeMore(ms, k, j);
    Regrouped(Flat(ms[..k]), Flat(ms[k..][..j]), end.readBuffer, mid.readBuffer, s.readBuffer, data, rest);
    assert s.dispatched + ms[..k] + ms[k..][..j] == s.dispatched + (ms[..k] + ms[k..][..j]);
  }

  ghost predicate Orderly(d: Delimiter, ms: seq<string>, panics: string -> bool) {
    AllMessages(d, ms) && Separable(d, ms) && Calm(ms, panics)
  }

  lemma {:induction false} OrderlyFrom(d: Delimiter, ms: seq<string>, panics: string -> bool, k: nat)
    requires Orderly(d, ms, panics) && k <= |ms|
    ensures Orderly(d, ms[k..], panics)
  {
    forall j | 1 <= j < |ms[k..]| && StartsOverlapping(d, ms[k..][j])
      ensures |ms[k..][j - 1]| + |d| - 1 > LIMIT
    {
      assert ms[k..][j] == ms[k + j] && ms[k..][j - 1] == ms[k + j - 1];
    }
  }

  lemma {:induction false} ReachedAtOnce(d: Delimiter, s: Session, data: string, ms: seq<string>, panics: string -> bool) returns (k: nat)
    requires Orderly(d, ms, panics) && |s.readBuffer| + |data| <= LIMIT && s.readBuffer + data <= Flat(ms)
    ensures k <= |ms| && Reached(d, s, data, ms, k, Received(d, s, data, panics))
  {
    if EndsWithDelimiter(d, s.readBuffer + data) {
      k := BoundaryStep(d, s, data, ms, panics);
      assert Flat(ms[..k]) + "" == Flat(ms[..k]);
    } else {
      k := 0;
      assert ms[..0] == [] && s.dispatched + [] == s.dispatched && "" + (s.readBuffer + data) == s.readBuffer + data;
    }
  }

  /** What the rest of the stream holds past a fragment. */
  lemma {:induction false} RestAfter(d: Delimiter, s: Session, data: string, rest: string, ms: seq<string>, k: nat, mid: Session)
    requires s.readBuffer + (data + rest) <= Flat(ms) && k <= |ms| && Reached(d, s, data, ms, k, mid)
    ensures mid.readBuffer + rest <= Flat(ms[k..])
  {
    var f := Flat(ms[..k]);
    assert s.readBuffer + (data + rest) == s.readBuffer + data + rest;
    assert f + mid.readBuffer + rest == f + (mid.readBuffer + rest);
    FlatFrom(ms, k);
    PastPrefix(f, mid.readBuffer + rest, Flat(ms[k..]));
  }

  /** The first fragment leads to `mid`, from where the rest of the stream is like any other. */
  lemma {:induction false} FirstFragment(d: Delimiter, s: Session, fragments: seq<string>, ms: seq<string>, panics: string -> bool, end: Session)
    returns (k: nat, mid: Session)
    requires fragments != [] && Orderly(d, ms, panics) && Fits(d, s, fragments, panics) && end == Receiving(d, s, fragments, panics)
    requires s.readBuffer + Flat(fragments) <= Flat(ms)
    ensures k <= |ms| && Reached(d, s, fragments[0], ms, k, mid) && Orderly(d, ms[k..], panics)
    ensures Fits(d, mid, fragments[1..], panics) && end == Receiving(d, mid, fragments[1..], panics)
    ensures mid.readBuffer + Flat(fragments[1..]) <= Flat(ms[k..]) && !EndsWithDelimiter(d, mid.readBuffer)
  {
    var data, rest := fragments[0], Flat(fragments[1..]);
    assert s.readBuffer + data <= s.readBuffer + (data + rest);
    k := ReachedAtOnce(d, s, data, ms, panics);
    mid := Received(d, s, data, panics);
    RestAfter(d, s, data, rest, ms, k, mid);
    OrderlyFrom(d, ms, panics, k);
  }

  lemma {:induction false} NothingReceived(d: Delimiter, s: Session, ms: seq<string>)
    requires !EndsWithDelimiter(d, s.readBuffer)
    ensures Reached(d, s, "", ms, 0, s)
  {
    assert ms[..0] == [] && s.dispatched + [] == s.dispatched && "" + s.readBuffer == s.readBuffer + "";
  }

  lemma {:induction false} LaterReached(d: Delimiter, s: Session, fragments: seq<string>, mid: Session, ms: seq<string>, k: nat, j: nat, end: Session)
    requires fragments != [] && k <= |ms| && j <= |ms| - k
    requires Reached(d, s, fragments[0], ms, k, mid) && Reached(d, mid, Flat(fragments[1..]), ms[k..], j, end)
    ensures Reached(d, s, Flat(fragments), ms, k + j, end)
  {
    ReachedLater(d, s, fragments[0], mid, Flat(fragments[1..]), ms, k, j, end);
  }

  /** On the way through a stream of separable messages, exactly the complete ones have been dispatched. */
  lemma {:induction false} InOrderFrom(d: Delimiter, s: Session, fragments: seq<string>, ms: seq<string>, panics: string -> bool, end: Session)
    returns (k: nat)
    requires Orderly(d, ms, panics) && Fits(d, s, fragments, panics) && end == Receiving(d, s, fragments, panics)
    requires s.readBuffer + Flat(fragments) <= Flat(ms) && !EndsWithDelimiter(d, s.readBuffer)
    ensures k <= |ms| && Reached(d, s, Flat(fragments), ms, k, end)
    decreases |fragments|, 1
  {
    if fragments == [] {
      k := 0;
      NothingReceived(d, s, ms);
    } else {
      var first, mid := FirstFragment(d, s, fragments, ms, panics, end);
      k := InOrderRest(d, s, fragments, ms, panics, end, first, mid);
    }
  }

  lemma {:induction false} InOrderRest(d: Delimiter, s: Session, fragments: seq<string>, ms: seq<string>, panics: string -> bool, end: Session, first: nat, mid: Session)
    returns (k: nat)
    requires fragments != [] && first <= |ms| && Reached(d, s, fragments[0], ms, first, mid) && Orderly(d, ms[first..], panics)
    requires Fits(d, mid, fragments[1..], panics) && end == Receiving(d, mid, fragments[1..], panics)
    requires mid.readBuffer + Flat(fragments[1..]) <= Flat(ms[first..]) && !EndsWithDelimiter(d, mid.readBuffer)
    ensures k <= |ms| && Reached(d, s, Flat(fragments), ms, k, end)
    decreases |fragments|, 0
  {
    var more := InOrderFrom(d, mid, fragments[1..], ms[first..], panics, end);
    k := first + more;
    LaterReached(d, s, fragments, mid, ms, first, more, end);
  }

  const FRESH := Session("", [])

  ghost predicate Delivers(d: Delimiter, ms: seq<string>, fragments: seq<string>, panics: string -> bool) {
    Receiving(d, FRESH, fragments, panics) == Session("", ms)
  }

  /** However a stream of separable messages is cut, they are dispatched in order if every fragment fits. */
  lemma {:induction false} Delivery(d: Delimiter, ms: seq<string>, fragments: seq<string>, panics: string -> bool)
    requires Orderly(d, ms, panics)
    requires Flat(fragments) == Flat(ms) && Fits(d, FRESH, fragments, panics)
    ensures Delivers(d, ms, fragments, panics)
  {
    assert "" + Flat(fragments) == Flat(fragments);
    var k := InOrderFrom(d, FRESH, fragments, ms, panics, Receiving(d, FRESH, fragments, panics));
    var end := Receiving(d, FRESH, fragments, panics);
    assert [] + ms[..k] == ms[..k];
    FlatFrom(ms, k);
    PastPrefix(Flat(ms[..k]), end.readBuffer, Flat(ms[k..]));
    assert end.readBuffer == Flat(ms[k..]);
    if k < |ms| {
      FlatEnds(d, ms[k..]);
      assert false;
    }
    assert ms[..k] == ms && ms[k..] == [];
  }

  // ----- What is lost stays lost -----

  function Weight(s: Session): nat {
    |Flat(s.dispatched)| + |s.readBuffer|
  }

  lemma {:induction false} FlatCons(first: string, rest: seq<string>)
    ensures Flat([first] + rest) == first + Flat(rest)
  {
    assert ([first] + rest)[1..] == rest;
  }

  lemma {:induction false} SplitKeepsAll(d: Delimiter, s: string)
    ensures Flat(SplitAfter(d, s)) == s
    decreases |s|
  {
    var at := Find(d, s, 0);
    if at.Some? {
      var n := at.value + |d|;
      SplitKeepsAll(d, s[n..]);
      FlatCons(s[..n], SplitAfter(d, s[n..]));
      assert s[..n] + s[n..] == s;
    } else {
      FlatCons(s, []);
      assert [s] + [] == [s] && s + "" == s;
    }
  }

  lemma {:induction false} VisitedKeepsAll(messages: seq<string>, panics: string -> bool)
    ensures var (visited, failed) := Visited(messages, panics);
            if failed then exists m :: m in visited && panics(m) else Flat(visited) == Flat(messages)
    decreases |messages|
  {
    if messages != [] {
      var (rest, failed) := Visited(messages[1..], panics);
      VisitedKeepsAll(messages[1..], panics);
      if messages[0] == "" {
        assert "" + Flat(messages[1..]) == Flat(messages[1..]);
      } else if panics(messages[0]) {
        assert messages[0] in [messages[0]];
      } else {
        assert ([messages[0]] + rest)[1..] == rest;
        if failed {
          var m :| m in rest && panics(m);
          assert m in [messages[0]] + rest;
        }
      }
    }
  }

  /** Unless a handler panics, a fragment's characters are kept, or all of them are dropped. */
  lemma {:induction false} FragmentWeight(d: Delimiter, s: Session, data: string, panics: string -> bool, ms: seq<string>)
    requires |s.readBuffer| <= LIMIT && Received(d, s, data, panics).dispatched <= ms && Calm(ms, panics)
    ensures var s' := Received(d, s, data, panics);
            && |s'.readBuffer| <= LIMIT
            && Weight(s') == Weight(s) + if |s.readBuffer| + |data| > LIMIT then 0 else |data|
  {
    var s', b := Received(d, s, data, panics), s.readBuffer + data;
    if |b| <= LIMIT && EndsWithDelimiter(d, b) {
      var (visited, failed) := Visited(SplitAfter(d, b), panics);
      SplitKeepsAll(d, b);
      VisitedKeepsAll(SplitAfter(d, b), panics);
      FlatAppend(s.dispatched, visited);
      if failed {
        var m :| m in visited && panics(m);
        InPrefix(s.dispatched, visited, ms, m);
      }
    }
  }

  lemma {:induction false} InPrefix(a: seq<string>, b: seq<string>, ms: seq<string>, m: string)
    requires a + b <= ms && m in b
    ensures exists k :: 0 <= k < |ms| && ms[k] == m
  {
    var j :| 0 <= j < |b| && b[j] == m;
    assert (a + b)[|a| + j] == m;
    assert ms[|a| + j] == m;
  }

  lemma {:induction false} DispatchedGrows(d: Delimiter, s: Session, fragments: seq<string>, panics: string -> bool)
    ensures s.dispatched <= Receiving(d, s, fragments, panics).dispatched
    decreases |fragments|
  {
    if fragments != [] {
      DispatchedGrows(d, Received(d, s, fragments[0], panics), fragments[1..], panics);
    }
  }

  lemma {:induction false} RunWeight(d: Delimiter, s: Session, fragments: seq<string>, panics: string -> bool, ms: seq<string>)
    requires |s.readBuffer| <= LIMIT && Receiving(d, s, fragments, panics).dispatched <= ms && Calm(ms, panics)
    ensures var end := Receiving(d, s, fragments, panics);
            if Fits(d, s, fragments, panics) then Weight(end) == Weight(s) + |Flat(fragments)|
            else Weight(end) < Weight(s) + |Flat(fragments)|
    decreases |fragments|
  {
    if fragments != [] {
      var mid := Received(d, s, fragments[0], panics);
      DispatchedGrows(d, mid, fragments[1..], panics);
      FragmentWeight(d, s, fragments[0], panics, ms);
      RunWeight(d, mid, fragments[1..], panics, ms);
    }
  }

  // ----- A handler that panics -----

  /** Some complete message in the buffer has a handler that panics. */
  predicate Stuck(d: Delimiter, b: string, panics: string -> bool)
    decreases |b|
  {
    var at := Find(d, b, 0);
    at.Some? && (panics(b[..at.value + |d|]) || Stuck(d, b[at.value + |d|..], panics))
  }

  lemma {:induction false} FoundStays(d: Delimiter, b: string, more: string)
    requires Find(d, b, 0).Some?
    ensures Find(d, b + more, 0) == Find(d, b, 0)
  {
    var at, r := Find(d, b, 0).value, Find(d, b + more, 0);
    forall k | 0 <= k <= at
      ensures DelimiterAt(d, b + more, k) <==> DelimiterAt(d, b, k)
    {
      assert (b + more)[k..k + |d|] == b[k..k + |d|];
    }
    assert DelimiterAt(d, b + more, at);
    assert r.value <= at;
  }

  lemma {:induction false} StuckStays(d: Delimiter, b: string, more: string, panics: string -> bool)
    requires Stuck(d, b, panics)
    ensures Stuck(d, b + more, panics)
    decreases |b|
  {
    var n := Find(d, b, 0).value + |d|;
    FoundStays(d, b, more);
    assert (b + more)[..n] == b[..n] && (b + more)[n..] == b[n..] + more;
    if !panics(b[..n]) {
      StuckStays(d, b[n..], more, panics);
    }
  }

  lemma {:induction false} StuckFails(d: Delimiter, b: string, panics: string -> bool)
    requires Stuck(d, b, panics)
    ensures Visited(SplitAfter(d, b), panics).1
    decreases |b|
  {
    var n := Find(d, b, 0).value + |d|;
    VisitedFirst(b[..n], SplitAfter(d, b[n..]), panics);
    if !panics(b[..n]) {
      StuckFails(d, b[n..], panics);
    }
  }

  /** A message whose handler panics stays at its place in the buffer, whatever arrives afterwards. */
  lemma {:induction false} PanicStays(d: Delimiter, s: Session, fragments: seq<string>, panics: string -> bool)
    requires Stuck(d, s.readBuffer, panics)
    ensures var end := Receiving(d, s, fragments, panics); s.readBuffer <= end.readBuffer && Stuck(d, end.readBuffer, panics)
    decreases |fragments|
  {
    if fragments != [] {
      var b := s.readBuffer + fragments[0];
      StuckStays(d, s.readBuffer, fragments[0], panics);
      StuckFails(d, b, panics);
      PanicStays(d, Received(d, s, fragments[0], panics), fragments[1..], panics);
    }
  }

  lemma {:induction false} VisitedUpTo(d: Delimiter, ms: seq<string>, k: nat, rest: seq<string>, panics: string -> bool)
    requires k < |ms| && AllMessages(d, ms) && Calm(ms[..k], panics) && panics(ms[k])
    ensures Visited(ms + rest, panics) == (ms[..k + 1], true)
    decreases k
  {
    assert ms + rest == [ms[0]] + (ms[1..] + rest) && IsMessage(d, ms[0]);
    VisitedFirst(ms[0], ms[1..] + rest, panics);
    if k == 0 {
      assert ms[..1] == [ms[0]];
    } else {
      assert ms[..k][0] == ms[0] && ms[1..][..k - 1] == ms[..k][1..] && ms[1..][k - 1] == ms[k];
      VisitedUpTo(d, ms[1..], k - 1, rest, panics);
      assert [ms[0]] + ms[1..][..k] == ms[..k + 1];
    }
  }

  /** Of buffered messages those up to the first whose handler panics are dispatched, and all stay buffered. */
  lemma {:induction false} PanicKeeps(d: Delimiter, s: Session, data: string, ms: seq<string>, k: nat, panics: string -> bool)
    requires AllMessages(d, ms) && k < |ms| && Calm(ms[..k], panics) && panics(ms[k])
    requires s.readBuffer + data == Flat(ms) && |Flat(ms)| <= LIMIT
    ensures Received(d, s, data, panics) == Session(Flat(ms), s.dispatched + ms[..k + 1])
  {
    SplitsIntoMessages(d, ms, "");
    assert Flat(ms) + "" == Flat(ms);
    FlatEnds(d, ms);
    VisitedUpTo(d, ms, k, [""], panics);
  }

  /** The messages before it are then dispatched again with every fragment that completes another message. */
  lemma {:induction false} Redispatched(d: Delimiter, s: Session, data: string, ms: seq<string>, k: nat, next: string, panics: string -> bool)
    requires AllMessages(d, ms) && k < |ms| && Calm(ms[..k], panics) && panics(ms[k]) && s.readBuffer + data == Flat(ms)
    requires IsMessage(d, next) && |Flat(ms)| + |next| <= LIMIT
    ensures Received(d, Received(d, s, data, panics), next, panics)
         == Session(Flat(ms) + next, s.dispatched + ms[..k + 1] + ms[..k + 1])
  {
    var more := ms + [next];
    PanicKeeps(d, s, data, ms, k, panics);
    FlatAppend(ms, [next]);
    FlatCons(next, []);
    assert [next] + [] == [next] && next + "" == next;
    assert more[..k] == ms[..k] && more[k] == ms[k] && more[..k + 1] == ms[..k + 1];
    PanicKeeps(d, Session(Flat(ms), s.dispatched + ms[..k + 1]), next, more, k, panics);
  }

  /** Buffers hold 16384 characters, and the delimiter is what the games end messages with. */
  lemma {:induction false} FragmentMeans(s: Session, data: string, panics: string -> bool)
    ensures var b, s' := s.readBuffer + data, Received(DELIMITER, s, data, panics);
            if |b| > 16384 then s' == s
            else if |b| < 7 || b[|b| - 7..] != "\\final\\" then s' == Session(b, s.dispatched)
            else s.dispatched <= s'.dispatched && s'.dispatched != s.dispatched && s'.readBuffer in ["", b]
  {
    var b := s.readBuffer + data;
    assert |DELIMITER| == 7;
    assert |b| >= 7 ==> b[|b| - 7..] == b[|b| - 7..|b| - 7 + 7];
    if |b| <= 16384 && EndsWithDelimiter(DELIMITER, b) {
      assert DelimiterAt(DELIMITER, b, |b| - 7);
      var n := Find(DELIMITER, b, 0).value + 7;
      VisitedFirst(b[..n], SplitAfter(DELIMITER, b[n..]), panics);
    }
  }

  lemma {:induction false} VisitedEnds(messages: seq<string>, panics: string -> bool)
    ensures var (visited, failed) := Visited(messages, panics);
            if failed then visited != [] && panics(visited[|visited| - 1]) else Calm(visited, panics)
    decreases |messages|
  {
    if messages != [] {
      VisitedEnds(messages[1..], panics);
    }
  }

  lemma {:induction false} VisitedFirst(first: string, rest: seq<string>, panics: string -> bool)
    requires first != ""
    ensures var (visited, failed) := Visited(rest, panics);
            Visited([first] + rest, panics) == if panics(first) then ([first], true) else ([first] + visited, failed)
  {
    assert ([first] + rest)[1..] == rest;
  }

  /** What is left over after splitting does not end with a delimiter. */
  lemma {:induction false} LeftOver(d: Delimiter, b: string, panics: string -> bool)
    requires Find(d, b, 0).None?
    ensures SplitAfter(d, b) == [b] && !EndsWithDelimiter(d, b)
    ensures b != "" ==> Visited([b], panics).0 == [b]
  {
    if b != "" {
      VisitedFirst(b, [], panics);
      assert [b] + [] == [b];
    }
    assert !DelimiterAt(d, b, |b| - |d|);
  }

  /** Unless what made the visit fail was only the rest behind the last delimiter, the buffer is stuck. */
  lemma {:induction false} FailureSticks(d: Delimiter, b: string, visited: seq<string>, panics: string -> bool)
    requires Visited(SplitAfter(d, b), panics) == (visited, true)
    requires visited != [] && EndsWithDelimiter(d, visited[|visited| - 1])
    ensures Stuck(d, b, panics)
    decreases |b|
  {
    var at := Find(d, b, 0);
    if at.Some? {
      var n := at.value + |d|;
      var first, rest := b[..n], SplitAfter(d, b[n..]);
      VisitedFirst(first, rest, panics);
      if !panics(first) {
        VisitedEnds(rest, panics);
        FailureSticks(d, b[n..], Visited(rest, panics).0, panics);
      }
    } else {
      LeftOver(d, b, panics);
    }
  }

  lemma {:induction false} LastInPrefix(d: Delimiter, a: seq<string>, b: seq<string>, ms: seq<string>)
    requires a + b <= ms && b != [] && AllMessages(d, ms)
    ensures IsMessage(d, b[|b| - 1])
  {
    assert (a + b)[|a| + |b| - 1] == b[|b| - 1] == ms[|a| + |b| - 1];
  }

  /** A fragment that hands over a message whose handler panics leaves the buffer stuck with it. */
  lemma {:induction false} FragmentCalm(d: Delimiter, s: Session, data: string, panics: string -> bool, ms: seq<string>)
    requires AllMessages(d, ms) && Received(d, s, data, panics).dispatched <= ms && Calm(s.dispatched, panics)
    ensures var s' := Received(d, s, data, panics); Calm(s'.dispatched, panics) || Stuck(d, s'.readBuffer, panics)
  {
    var b := s.readBuffer + data;
    if |b| <= LIMIT && EndsWithDelimiter(d, b) {
      var (visited, failed) := Visited(SplitAfter(d, b), panics);
      VisitedEnds(SplitAfter(d, b), panics);
      if failed {
        LastInPrefix(d, s.dispatched, visited, ms);
        FailureSticks(d, b, visited, panics);
      }
    }
  }

  lemma {:induction false} RunCalm(d: Delimiter, s: Session, fragments: seq<string>, panics: string -> bool, ms: seq<string>)
    requires AllMessages(d, ms) && Calm(s.dispatched, panics)
    requires var end := Receiving(d, s, fragments, panics); end.dispatched <= ms && end.readBuffer == ""
    ensures Calm(Receiving(d, s, fragments, panics).dispatched, panics)
    decreases |fragments|
  {
    if fragments != [] {
      var mid := Received(d, s, fragments[0], panics);
      DispatchedGrows(d, mid, fragments[1..], panics);
      FragmentCalm(d, s, fragments[0], panics, ms);
      if Stuck(d, mid.readBuffer, panics) {
        PanicStays(d, mid, fragments[1..], panics);
        assert false;
      }
      RunCalm(d, mid, fragments[1..], panics, ms);
    }
  }

  /** A cut that overflows the buffer loses characters for good, whether or not a handler panics. */
  lemma {:induction false} DroppedIsLost(d: Delimiter, ms: seq<string>, fragments: seq<string>, panics: string -> bool)
    requires AllMessages(d, ms) || Calm(ms, panics)
    requires Flat(fragments) == Flat(ms) && !Fits(d, FRESH, fragments, panics)
    ensures !Delivers(d, ms, fragments, panics)
  {
    if Delivers(d, ms, fragments, panics) {
      if AllMessages(d, ms) {
        RunCalm(d, FRESH, fragments, panics, ms);
      }
      RunWeight(d, FRESH, fragments, panics, ms);
      assert false;
    }
  }

  /**
    A cut of a stream of separable messages delivers them exactly when no fragment overflows the buffer
    and no handler panics.
   */
  lemma {:induction false} DeliveryIff(d: Delimiter, ms: seq<string>, fragments: seq<string>, panics: string -> bool)
    requires AllMessages(d, ms) && Separable(d, ms) && Flat(fragments) == Flat(ms)
    ensures Delivers(d, ms, fragments, panics) <==> Fits(d, FRESH, fragments, panics) && Calm(ms, panics)
  {
    if Delivers(d, ms, fragments, panics) {
      RunCalm(d, FRESH, fragments, panics, ms);
      if !Fits(d, FRESH, fragments, panics) {
        DroppedIsLost(d, ms, fragments, panics);
        assert false;
      }
    } else if Calm(ms, panics) && Fits(d, FRESH, fragments, panics) {
      Delivery(d, ms, fragments, panics);
      assert false;
    }
  }

  /** A stream that fits the buffer as a whole fits however it is cut. */
  lemma {:induction false} ShortFits(d: Delimiter, s: Session, fragments: seq<string>, panics: string -> bool)
    requires |s.readBuffer| + |Flat(fragments)| <= LIMIT
    ensures Fits(d, s, fragments, panics)
    decreases |fragments|
  {
    if fragments != [] {
      ShortFits(d, Received(d, s, fragments[0], panics), fragments[1..], panics);
    }
  }

  // ----- When the cut matters -----

  lemma {:induction false} OverlapEnds(d: Delimiter, s: string)
    requires EndsWithDelimiter(d, s)
    ensures EndsWithDelimiter(d, s + d[1..])
  {
    var b := s + d[1..];
    assert s[|s| - |d|..][|d| - 1] == d[|d| - 1];
    assert b[|b| - |d|..] == [d[0]] + d[1..] == d;
  }

  /** The overlap is then dispatched on its own. */
  lemma {:induction false} OverlapDispatched(d: Delimiter, before: seq<string>, m: string, panics: string -> bool)
    requires IsMessage(d, m) && !panics(m) && |m| + |d| - 1 <= LIMIT
    ensures Received(d, Session("", before), m + d[1..], panics).dispatched == before + [m] + [d[1..]]
  {
    var overlap := d[1..];
    OverlapEnds(d, m);
    FlatCons(m, []);
    assert "" + (m + overlap) == m + overlap && [m] + [] == [m] && m + "" == m;
    Dispatching(d, Session("", before), m + overlap, [m], overlap, panics);
    assert before + ([m] + [overlap]) == before + [m] + [overlap];
  }

  lemma {:induction false} RunAppend(d: Delimiter, s: Session, a: seq<string>, data: string, panics: string -> bool)
    ensures Receiving(d, s, a + [data], panics) == Received(d, Receiving(d, s, a, panics), data, panics)
    ensures Fits(d, s, a, panics) && |Receiving(d, s, a, panics).readBuffer| + |data| <= LIMIT ==> Fits(d, s, a + [data], panics)
    decreases |a|
  {
    if a == [] {
      assert (a + [data])[1..] == [];
    } else {
      assert (a + [data])[1..] == a[1..] + [data];
      RunAppend(d, Received(d, s, a[0], panics), a[1..], data, panics);
    }
  }

  lemma {:induction false} OneMessage(d: Delimiter, before: seq<string>, m: string, panics: string -> bool)
    requires IsMessage(d, m) && !panics(m) && |m| <= LIMIT
    ensures Received(d, Session("", before), m, panics) == Session("", before + [m])
  {
    FlatCons(m, []);
    assert [m] + [] == [m] && "" + m == m + "" == m;
    Dispatching(d, Session("", before), m, [m], "", panics);
  }

  lemma {:induction false} OneMore(d: Delimiter, before: seq<string>, m: string, panics: string -> bool)
    requires Delivers(d, before, before, panics) && Fits(d, FRESH, before, panics)
    requires IsMessage(d, m) && !panics(m) && |m| <= LIMIT
    ensures Delivers(d, before + [m], before + [m], panics) && Fits(d, FRESH, before + [m], panics)
  {
    RunAppend(d, FRESH, before, m, panics);
    OneMessage(d, before, m, panics);
  }

  lemma {:induction false} TakeLast(ms: seq<string>, n: nat)
    requires 1 <= n <= |ms|
    ensures ms[..n - 1] + [ms[n - 1]] == ms[..n]
  {
  }

  /** Messages that arrive one a fragment are dispatched one a fragment. */
  lemma {:induction false} OneByOne(d: Delimiter, ms: seq<string>, n: nat, panics: string -> bool)
    requires AllMessages(d, ms) && Calm(ms, panics) && (forall k :: 0 <= k < |ms| ==> |ms[k]| <= LIMIT) && n <= |ms|
    ensures Delivers(d, ms[..n], ms[..n], panics) && Fits(d, FRESH, ms[..n], panics)
    decreases n
  {
    if n > 0 {
      OneByOne(d, ms, n - 1, panics);
      TakeLast(ms, n);
      OneMore(d, ms[..n - 1], ms[n - 1], panics);
    }
  }

  /** Every cut of the stream, or of its start, that fits the buffer dispatches messages as sent. */
  ghost predicate InOrder(d: Delimiter, ms: seq<string>, panics: string -> bool) {
    forall fragments :: Flat(fragments) <= Flat(ms) && Fits(d, FRESH, fragments, panics) ==>
      Receiving(d, FRESH, fragments, panics).dispatched <= ms
  }

  /** The stream up to the overlap at the start of message `k`. */
  lemma {:induction false} CutFlat(d: Delimiter, ms: seq<string>, k: nat)
    requires 1 <= k < |ms| && StartsOverlapping(d, ms[k])
    ensures Flat(ms[..k - 1] + [ms[k - 1] + d[1..]]) <= Flat(ms)
  {
    var before, m, overlap := ms[..k - 1], ms[k - 1], d[1..];
    FlatAppend(before, [m + overlap]);
    FlatCons(m + overlap, []);
    assert [m + overlap] + [] == [m + overlap] && m + overlap + "" == m + overlap;
    FlatFrom(ms, k - 1);
    FlatCons(m, ms[k..]);
    FlatCons(ms[k], ms[k + 1..]);
    assert ms[k - 1..] == [m] + ms[k..] && ms[k..] == [ms[k]] + ms[k + 1..];
    assert overlap <= Flat(ms[k..]);
  }

  /** After messages that came one a fragment, the last one together with the overlap. */
  lemma {:induction false} OverlapLast(d: Delimiter, before: seq<string>, m: string, panics: string -> bool)
    requires Delivers(d, before, before, panics) && Fits(d, FRESH, before, panics)
    requires IsMessage(d, m) && !panics(m) && |m| + |d| - 1 <= LIMIT
    ensures Fits(d, FRESH, before + [m + d[1..]], panics)
    ensures Receiving(d, FRESH, before + [m + d[1..]], panics).dispatched == before + [m] + [d[1..]]
  {
    RunAppend(d, FRESH, before, m + d[1..], panics);
    OverlapDispatched(d, before, m, panics);
  }

  /** Cut behind the overlap, the stream seems to end there. */
  lemma {:induction false} BadCut(d: Delimiter, ms: seq<string>, k: nat, panics: string -> bool) returns (fragments: seq<string>)
    requires AllMessages(d, ms) && Calm(ms, panics) && forall j :: 0 <= j < |ms| ==> |ms[j]| <= LIMIT
    requires 1 <= k < |ms| && StartsOverlapping(d, ms[k]) && |ms[k - 1]| + |d| - 1 <= LIMIT
    ensures Flat(fragments) <= Flat(ms) && Fits(d, FRESH, fragments, panics)
    ensures Receiving(d, FRESH, fragments, panics).dispatched == ms[..k] + [d[1..]]
  {
    var before, m := ms[..k - 1], ms[k - 1];
    fragments := before + [m + d[1..]];
    CutFlat(d, ms, k);
    OneByOne(d, ms, k - 1, panics);
    OverlapLast(d, before, m, panics);
    assert ms[..k] == before + [m];
  }

  /**
    The messages of a connection are dispatched as sent however its fragments are cut, as long as they
    fit, exactly when none that could be buffered with the one before it starts with the delimiter
    less its first character.
   */
  lemma {:induction false} InOrderIff(d: Delimiter, ms: seq<string>, panics: string -> bool)
    requires AllMessages(d, ms) && Calm(ms, panics) && forall k :: 0 <= k < |ms| ==> |ms[k]| <= LIMIT
    ensures Separable(d, ms) <==> InOrder(d, ms, panics)
  {
    if Separable(d, ms) {
      forall fragments | Flat(fragments) <= Flat(ms) && Fits(d, FRESH, fragments, panics)
        ensures Receiving(d, FRESH, fragments, panics).dispatched <= ms
      {
        assert "" + Flat(fragments) == Flat(fragments);
        var k := InOrderFrom(d, FRESH, fragments, ms, panics, Receiving(d, FRESH, fragments, panics));
        assert [] + ms[..k] == ms[..k];
      }
    } else {
      var k :| 1 <= k < |ms| && StartsOverlapping(d, ms[k]) && |ms[k - 1]| + |d| - 1 <= LIMIT;
      var fragments := BadCut(d, ms, k, panics);
      var all := Receiving(d, FRESH, fragments, panics).dispatched;
      assert all[k] == d[1..];
      assert IsMessage(d, ms[k]);
    }
  }

  /** Messages whose bodies are empty or start with a backslash are never in doubt. */
  lemma {:induction false} BackslashSeparable(ms: seq<string>)
    requires forall k :: 0 <= k < |ms| ==> ms[k] != "" && ms[k][0] == '\\'
    ensures Separable(DELIMITER, ms)
  {
    assert DELIMITER[1..][0] == 'f';
  }

  // ----- The implementation -----

  class GameSpySession {
    const panics: string -> bool
    var readBuffer: string
    var dispatched: seq<string>

    ghost function State(): Session
      reads this
    {
      Session(readBuffer, dispatched)
    }

    constructor (panics: string -> bool)
      ensures this.panics == panics && State() == Session("", [])
    {
      this.panics, readBuffer, dispatched := panics, "", [];
    }

    /** Stops at the first handler that panics. */
    method DispatchAll(messages: seq<string>) returns (failed: bool)
      modifies `dispatched
      ensures dispatched == old(dispatched) + Visited(messages, panics).0 && failed == Visited(messages, panics).1
    {
      ghost var all := Visited(messages, panics);
      for i := 0 to |messages|
        invariant dispatched + Visited(messages[i..], panics).0 == old(dispatched) + all.0
        invariant Visited(messages[i..], panics).1 == all.1
      {
        var message := messages[i];
        assert messages[i..][1..] == messages[i + 1..];
        if message == "" {
          continue;
        }
        dispatched := dispatched + [message];
        if panics(message) {
          return true;
        }
      }
      failed := false;
    }

    method HandlePacket(data: string)
      modifies this
      ensures State() == Received(DELIMITER, old(State()), data, panics)
    {
      if |readBuffer| + |data| > LIMIT {
        return;
      }
      readBuffer := readBuffer + data;
      if !EndsWithDelimiter(DELIMITER, readBuffer) {
        return;
      }
      var failed := DispatchAll(SplitAfter(DELIMITER, readBuffer));
      if failed {
        return;
      }
      readBuffer := "";
    }
  }
}
