/** The event reader of scripts/navigation_value.py: one pass over the interleaved events
    of every coding session, demultiplexed into each session's own context windows. */
module Windows {
  import opened PyText
  import opened Corpora
  import opened Order

  const CODER_SOURCE := "agent"
  const ATTEMPT_START := "attempt_start"
  const COMPACTION := "compaction"

  /** A decoded event: the fields the reader looks at, `None` where a field is absent or has
      the wrong type. `call` is what the tool name and its input normalize to. */
  datatype Event =
    | Malformed
    | Event(kind: string, source: string, tool: Option<string>, useId: Option<string>,
            chars: Option<int>, subagent: bool, call: Call)

  datatype Row = Row(owner: string, event: Event)

  // ----- what each event means for its owner -----

  /** An event either cuts its owner's window, adds a call to it, or does neither. */
  datatype Mark = Cut | Made(call: Call)

  function MarksOf(e: Event): seq<Mark> {
    if e.Malformed? then []
    else if e.kind == ATTEMPT_START || e.kind == COMPACTION then [Cut]
    else if e.source == CODER_SOURCE && e.kind == "tool_use" && e.tool.Some? then [Made(e.call)]
    else []
  }

  /** One owner's own events, in order. */
  function Projection(rows: seq<Row>, owner: string): seq<Mark> {
    if rows == [] then []
    else
      var row := rows[|rows| - 1];
      Projection(rows[..|rows| - 1], owner) + (if row.owner == owner then MarksOf(row.event) else [])
  }

  function Calls(marks: seq<Mark>): Window {
    if marks == [] then []
    else Calls(marks[..|marks| - 1]) + (match marks[|marks| - 1] case Cut => [] case Made(c) => [c])
  }

  /** The calls of each piece, with the empty pieces dropped. */
  function NonEmpty(pieces: seq<seq<Mark>>): seq<Window> {
    if pieces == [] then []
    else
      var w := Calls(pieces[|pieces| - 1]);
      NonEmpty(pieces[..|pieces| - 1]) + (if w == [] then [] else [w])
  }

  /** The specification: an owner's events, split at every cut like text at a separator. */
  function WindowsOf(rows: seq<Row>, owner: string): seq<Window> {
    NonEmpty(Split(Projection(rows, owner), Cut))
  }

  /** The windows already cut off, and the one still open. */
  function Closed(ms: seq<Mark>): seq<Window> {
    var ps := Split(ms, Cut);
    NonEmpty(ps[..|ps| - 1])
  }

  function Open(ms: seq<Mark>): Window {
    var ps := Split(ms, Cut);
    Calls(ps[|ps| - 1])
  }

  function Both(ms: seq<Mark>): seq<Window> { NonEmpty(Split(ms, Cut)) }

  lemma ClosedThenOpen(ms: seq<Mark>)
    ensures Both(ms) == Closed(ms) + (if Open(ms) == [] then [] else [Open(ms)])
  {
  }

  lemma SplitCut(ms: seq<Mark>)
    ensures Split(ms + [Cut], Cut) == Split(ms, Cut) + [[]]
  {
    var ps := Split(ms, Cut);
    JoinSnoc(ps, [], Cut);
    SplitJoin(ps + [[]], Cut);
    assert ms + [Cut] + [] == ms + [Cut];
  }

  lemma SplitMade(ms: seq<Mark>, c: Call)
    ensures var ps := Split(ms, Cut);
            Split(ms + [Made(c)], Cut) == ps[..|ps| - 1] + [ps[|ps| - 1] + [Made(c)]]
  {
    var ps := Split(ms, Cut);
    var ps' := ps[..|ps| - 1] + [ps[|ps| - 1] + [Made(c)]];
    if |ps| == 1 {
      assert ps == [ps[0]];
    } else {
      assert ps == ps[..|ps| - 1] + [ps[|ps| - 1]];
      JoinSnoc(ps[..|ps| - 1], ps[|ps| - 1], Cut);
      JoinSnoc(ps[..|ps| - 1], ps[|ps| - 1] + [Made(c)], Cut);
    }
    assert Join(ps', Cut) == ms + [Made(c)];
    SplitJoin(ps', Cut);
  }

  lemma {:induction false} JoinSnoc(ps: seq<seq<Mark>>, last: seq<Mark>, d: Mark)
    requires |ps| >= 1
    ensures Join(ps + [last], d) == Join(ps, d) + [d] + last
  {
    if |ps| == 1 {
      assert (ps + [last])[1..] == [last];
    } else {
      assert (ps + [last])[1..] == ps[1..] + [last];
      JoinSnoc(ps[1..], last, d);
    }
  }

  lemma AfterCut(ms: seq<Mark>)
    ensures Closed(ms + [Cut]) == Both(ms) && Open(ms + [Cut]) == []
  {
    var ps := Split(ms, Cut);
    SplitCut(ms);
    assert (ps + [[]])[..|ps|] == ps;
  }

  lemma AfterMade(ms: seq<Mark>, c: Call)
    ensures Closed(ms + [Made(c)]) == Closed(ms) && Open(ms + [Made(c)]) == Open(ms) + [c]
  {
    var ps := Split(ms, Cut);
    var front, last := ps[..|ps| - 1], ps[|ps| - 1];
    SplitMade(ms, c);
    var ps' := Split(ms + [Made(c)], Cut);
    assert ps'[|ps'| - 1] == last + [Made(c)] && ps'[..|ps'| - 1] == front;
    CallsOfOneMore(last, c);
  }

  lemma CallsOfOneMore(ms: seq<Mark>, c: Call)
    ensures Calls(ms + [Made(c)]) == Calls(ms) + [c]
  {
    assert (ms + [Made(c)])[..|ms|] == ms;
  }

  lemma OneMoreRow(rows: seq<Row>, row: Row, owner: string)
    ensures Projection(rows + [row], owner)
            == Projection(rows, owner) + (if row.owner == owner then MarksOf(row.event) else [])
  {
    assert (rows + [row])[..|rows|] == rows;
  }

  // ----- result sizes and the malformed count -----

  function Sizes(rows: seq<Row>): map<string, Size> {
    if rows == [] then map[]
    else
      var m, e := Sizes(rows[..|rows| - 1]), rows[|rows| - 1].event;
      if e.Event? && e.kind != ATTEMPT_START && e.kind != COMPACTION && e.source == CODER_SOURCE
         && e.kind == "tool_result" && e.useId.Some? && e.chars.Some?
      then m[e.useId.value := Size(e.chars.value, e.subagent)]
      else m
  }

  function MalformedCount(rows: seq<Row>): nat {
    if rows == [] then 0
    else MalformedCount(rows[..|rows| - 1]) + (if rows[|rows| - 1].event.Malformed? then 1 else 0)
  }

  // ----- the reader -----

  function Get<T>(m: map<string, seq<T>>, key: string): seq<T> { if key in m then m[key] else [] }

  /** What the two dictionaries hold for one owner. */
  ghost predicate Tracks(perTask: map<string, seq<Window>>, current: map<string, Window>,
                           rows: seq<Row>, owner: string) {
    && Get(perTask, owner) == Closed(Projection(rows, owner))
    && Get(current, owner) == Open(Projection(rows, owner))
  }

  /** A dictionary with no empty lists, and its keys in insertion order. */
  ghost predicate KeysOf<T>(m: map<string, seq<T>>, order: seq<string>) {
    && Distinct(order) && (forall k :: k in order <==> k in m) && forall k :: k in m ==> m[k] != []
  }

  /** `d.setdefault(key, []).append(x)`. */
  method Append<T>(m: map<string, seq<T>>, order: seq<string>, key: string, x: T)
    returns (m': map<string, seq<T>>, order': seq<string>)
    requires KeysOf(m, order)
    ensures KeysOf(m', order') && m' == m[key := Get(m, key) + [x]]
  {
    order' := if key in m then order else order + [key];
    m' := m[key := Get(m, key) + [x]];
  }

  /** `d.pop(key, None)`. */
  method Pop<T>(m: map<string, seq<T>>, order: seq<string>, key: string)
    returns (m': map<string, seq<T>>, order': seq<string>)
    requires KeysOf(m, order)
    ensures KeysOf(m', order') && m' == m - {key}
  {
    order' := Without(order, key);
    WithoutKeeps(order, key);
    m' := m - {key};
  }

  /** Closes the owner's window, when one is open. */
  method CloseWindow(perTask0: map<string, seq<Window>>, order0: seq<string>,
                     current0: map<string, Window>, currentOrder0: seq<string>, key: string)
    returns (perTask: map<string, seq<Window>>, order: seq<string>,
             current: map<string, Window>, currentOrder: seq<string>)
    requires KeysOf(perTask0, order0) && KeysOf(current0, currentOrder0)
    ensures KeysOf(perTask, order) && KeysOf(current, currentOrder) && current == current0 - {key}
    ensures perTask == if key in current0 then perTask0[key := Get(perTask0, key) + [current0[key]]] else perTask0
  {
    perTask, order, current, currentOrder := perTask0, order0, current0, currentOrder0;
    if key in current {
      var window := current[key];
      current, currentOrder := Pop(current, currentOrder, key);
      if window != [] { perTask, order := Append(perTask, order, key, window); }
    } else {
      assert current0 - {key} == current0;
    }
  }

  function Without(s: seq<string>, key: string): seq<string> {
    if s == [] then [] else Without(s[..|s| - 1], key) + (if s[|s| - 1] == key then [] else [s[|s| - 1]])
  }

  lemma {:induction false} WithoutKeeps(s: seq<string>, key: string)
    requires Distinct(s)
    ensures Distinct(Without(s, key)) && forall k :: k in Without(s, key) <==> k in s && k != key
  {
    if s != [] {
      WithoutKeeps(s[..|s| - 1], key);
      assert s == s[..|s| - 1] + [s[|s| - 1]];
      assert s[|s| - 1] !in s[..|s| - 1];
    }
  }

  lemma TracksStep(perTask: map<string, seq<Window>>, current: map<string, Window>, rows: seq<Row>, row: Row,
                   perTask': map<string, seq<Window>>, current': map<string, Window>)
    requires forall k :: Tracks(perTask, current, rows, k)
    requires forall k :: k in current ==> current[k] != []
    requires var key, ms := row.owner, MarksOf(row.event);
      if ms == [] then perTask' == perTask && current' == current
      else if ms == [Cut] then
        && Get(current', key) == [] && (forall k :: k != key ==> Get(current', k) == Get(current, k))
        && perTask' == if key in current then perTask[key := Get(perTask, key) + [current[key]]] else perTask
      else perTask' == perTask && current' == current[key := Get(current, key) + [ms[0].call]]
    ensures forall k :: Tracks(perTask', current', rows + [row], k)
  {
    var key, ms := row.owner, MarksOf(row.event);
    forall k ensures Tracks(perTask', current', rows + [row], k) {
      assert Tracks(perTask, current, rows, k);
      OneMoreRow(rows, row, k);
      if k == key && ms == [Cut] {
        AfterCut(Projection(rows, k));
        ClosedThenOpen(Projection(rows, k));
      } else if k == key && ms != [] {
        AfterMade(Projection(rows, k), ms[0].call);
      } else {
        assert Projection(rows, k) + [] == Projection(rows, k);
      }
    }
  }

  /** The windows of the corpus, owner after owner. */
  function InOrder(rows: seq<Row>, order: seq<string>): seq<Window> {
    if order == [] then [] else InOrder(rows, order[..|order| - 1]) + WindowsOf(rows, order[|order| - 1])
  }

  /** For every interleaving, each owner's windows are its own events cut at every attempt
      start or compaction, none lost, duplicated or moved: the corpus lists, owner after
      owner, exactly the windows of those owners that have any. */
  method ReadEvents(rows: seq<Row>) returns (corpus: Corpus, order: seq<string>)
    ensures Distinct(order) && forall k :: k in order <==> WindowsOf(rows, k) != []
    ensures corpus.windows == InOrder(rows, order) && corpus.sessions == |order|
    ensures corpus.sizes == Sizes(rows) && corpus.malformed == MalformedCount(rows)
  {
    var malformed := 0;
    var sizes: map<string, Size> := map[];
    var perTask: map<string, seq<Window>>, current: map<string, Window> := map[], map[];
    var currentOrder: seq<string> := [];
    order := [];
    for i := 0 to |rows|
      invariant KeysOf(perTask, order) && KeysOf(current, currentOrder)
      invariant forall k :: Tracks(perTask, current, rows[..i], k)
      invariant sizes == Sizes(rows[..i]) && malformed == MalformedCount(rows[..i])
    {
      assert rows[..i + 1] == rows[..i] + [rows[i]] && rows[..i + 1][..i] == rows[..i];
      var key, e := rows[i].owner, rows[i].event;
      ghost var was, wasOpen := perTask, current;
      if e.Malformed? {
        malformed := malformed + 1;
      } else if e.kind == ATTEMPT_START || e.kind == COMPACTION {
        perTask, order, current, currentOrder := CloseWindow(perTask, order, current, currentOrder, key);
      } else if e.source != CODER_SOURCE {
      } else if e.kind == "tool_result" {
        if e.useId.Some? && e.chars.Some? {
          sizes := sizes[e.useId.value := Size(e.chars.value, e.subagent)];
        }
      } else if e.kind == "tool_use" && e.tool.Some? {
        current, currentOrder := Append(current, currentOrder, key, e.call);
      }
      TracksStep(was, wasOpen, rows[..i], rows[i], perTask, current);
    }
    assert rows[..|rows|] == rows;
    perTask, order := Flush(rows, perTask, order, current, currentOrder);
    var windows := Gather(rows, perTask, order);
    corpus := Corpus(windows, sizes, |order|, malformed);
  }

  /** The end of the run closes every window still open. */
  method Flush(ghost rows: seq<Row>, perTask0: map<string, seq<Window>>, order0: seq<string>,
               current: map<string, Window>, currentOrder: seq<string>)
    returns (perTask: map<string, seq<Window>>, order: seq<string>)
    requires KeysOf(perTask0, order0) && KeysOf(current, currentOrder)
    requires forall k :: Tracks(perTask0, current, rows, k)
    ensures KeysOf(perTask, order) && forall k :: Get(perTask, k) == WindowsOf(rows, k)
  {
    perTask, order := perTask0, order0;
    for i := 0 to |currentOrder|
      invariant KeysOf(perTask, order)
      invariant forall k :: Flushed(perTask, perTask0, rows, currentOrder[..i], k)
    {
      var key := currentOrder[i];
      ghost var was := perTask;
      assert key !in currentOrder[..i] && currentOrder[..i + 1] == currentOrder[..i] + [key];
      if current[key] != [] { perTask, order := Append(perTask, order, key, current[key]); }
      FlushOne(was, perTask, perTask0, current, rows, currentOrder[..i], key);
    }
    assert currentOrder[..|currentOrder|] == currentOrder;
    forall k ensures Get(perTask, k) == WindowsOf(rows, k) {
      assert Tracks(perTask0, current, rows, k) && Flushed(perTask, perTask0, rows, currentOrder, k);
      ClosedThenOpen(Projection(rows, k));
    }
  }

  lemma FlushOne(was: map<string, seq<Window>>, now: map<string, seq<Window>>, perTask0: map<string, seq<Window>>,
                 current: map<string, Window>, rows: seq<Row>, done: seq<string>, key: string)
    requires forall k :: Tracks(perTask0, current, rows, k)
    requires forall k :: Flushed(was, perTask0, rows, done, k)
    requires key in current && key !in done
    requires now == if current[key] == [] then was else was[key := Get(was, key) + [current[key]]]
    ensures forall k :: Flushed(now, perTask0, rows, done + [key], k)
  {
    assert Tracks(perTask0, current, rows, key) && Flushed(was, perTask0, rows, done, key);
    ClosedThenOpen(Projection(rows, key));
    forall k ensures Flushed(now, perTask0, rows, done + [key], k) {
      assert Flushed(was, perTask0, rows, done, k);
    }
  }

  ghost predicate Flushed(perTask: map<string, seq<Window>>, perTask0: map<string, seq<Window>>, rows: seq<Row>,
                          done: seq<string>, k: string) {
    Get(perTask, k) == if k in done then WindowsOf(rows, k) else Get(perTask0, k)
  }

  method Gather(ghost rows: seq<Row>, perTask: map<string, seq<Window>>, order: seq<string>)
    returns (windows: seq<Window>)
    requires KeysOf(perTask, order) && forall k :: Get(perTask, k) == WindowsOf(rows, k)
    ensures windows == InOrder(rows, order)
  {
    windows := [];
    for i := 0 to |order|
      invariant windows == InOrder(rows, order[..i])
    {
      var key := order[i];
      assert key in order && Get(perTask, key) == WindowsOf(rows, key);
      InOrderSnoc(rows, order[..i], key);
      assert order[..i + 1] == order[..i] + [key];
      windows := windows + perTask[key];
    }
    assert order[..|order|] == order;
  }

  lemma InOrderSnoc(rows: seq<Row>, order: seq<string>, key: string)
    ensures InOrder(rows, order + [key]) == InOrder(rows, order) + WindowsOf(rows, key)
  {
    assert (order + [key])[..|order|] == order;
  }

  // ----- nothing lost, nothing moved -----

  lemma ConcatUnlessEmpty<T>(lists: seq<seq<T>>, last: seq<T>)
    ensures Concat(lists + (if last == [] then [] else [last])) == Concat(lists) + last
  {
    assert (lists + [last])[..|lists|] == lists;
    assert lists + [] == lists;
  }

  lemma {:induction false} NonEmptyKeepsCalls(pieces: seq<seq<Mark>>)
    requires |pieces| >= 1
    ensures Concat(NonEmpty(pieces)) == Calls(Join(pieces, Cut))
  {
    var n := |pieces| - 1;
    ConcatUnlessEmpty(NonEmpty(pieces[..n]), Calls(pieces[n]));
    if n == 0 {
      assert pieces[..0] == [];
    } else {
      assert pieces == pieces[..n] + [pieces[n]];
      NonEmptyKeepsCalls(pieces[..n]);
      JoinSnoc(pieces[..n], pieces[n], Cut);
      CallsAcrossCut(Join(pieces[..n], Cut), pieces[n]);
    }
  }

  lemma CallsAcrossCut(a: seq<Mark>, b: seq<Mark>)
    ensures Calls(a + [Cut] + b) == Calls(a) + Calls(b)
  {
    CallsAppend(a + [Cut], b);
    assert (a + [Cut])[..|a|] == a;
  }

  lemma {:induction false} CallsAppend(a: seq<Mark>, b: seq<Mark>)
    ensures Calls(a + b) == Calls(a) + Calls(b)
  {
    if b == [] {
      assert a + b == a;
    } else {
      assert (a + b)[..|a + b| - 1] == a + b[..|b| - 1];
      CallsAppend(a, b[..|b| - 1]);
    }
  }

  /** Read one after the other, an owner's windows are exactly the calls it made, in order. */
  lemma NoCallLost(rows: seq<Row>, owner: string)
    ensures Concat(WindowsOf(rows, owner)) == Calls(Projection(rows, owner))
  {
    NonEmptyKeepsCalls(Split(Projection(rows, owner), Cut));
  }

  /** Two events of different owners may trade places without any owner noticing. */
  lemma {:induction false} InterleavingIrrelevant(a: seq<Row>, x: Row, y: Row, b: seq<Row>, owner: string)
    requires x.owner != y.owner
    ensures WindowsOf(a + [x, y] + b, owner) == WindowsOf(a + [y, x] + b, owner)
  {
    TradePlaces(a, x, y, b, owner);
  }

  lemma {:induction false} TradePlaces(a: seq<Row>, x: Row, y: Row, b: seq<Row>, owner: string)
    requires x.owner != y.owner
    ensures Projection(a + [x, y] + b, owner) == Projection(a + [y, x] + b, owner)
  {
    if b == [] {
      assert a + [x, y] + b == a + [x] + [y] && a + [y, x] + b == a + [y] + [x];
      TradeLast(a, x, y, owner);
    } else {
      var front, row := b[..|b| - 1], b[|b| - 1];
      assert b == front + [row];
      TradePlaces(a, x, y, front, owner);
      OneMoreAfter(a + [x, y], front, row, owner);
      OneMoreAfter(a + [y, x], front, row, owner);
    }
  }

  lemma TradeLast(a: seq<Row>, x: Row, y: Row, owner: string)
    requires x.owner != y.owner
    ensures Projection(a + [x] + [y], owner) == Projection(a + [y] + [x], owner)
  {
    OneMoreRow(a + [x], y, owner);
    OneMoreRow(a, x, owner);
    OneMoreRow(a + [y], x, owner);
    OneMoreRow(a, y, owner);
  }

  lemma OneMoreAfter(a: seq<Row>, b: seq<Row>, row: Row, owner: string)
    ensures Projection(a + (b + [row]), owner)
            == Projection(a + b, owner) + (if row.owner == owner then MarksOf(row.event) else [])
  {
    assert a + (b + [row]) == a + b + [row];
    OneMoreRow(a + b, row, owner);
  }
}
