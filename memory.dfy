/** The `chat_memory` table and the response resolver `get_bot_response`
    (offline_online_whisper_flask_chatbot.py, lines 24-31 and 104-131).

    The table is an append-only log of rows `(id, user_input, bot_response)`
    whose ids come from `INTEGER PRIMARY KEY AUTOINCREMENT`: each new row
    gets one more than the largest id ever handed out, starting at 1, and
    no row is ever updated or deleted. `nextId` is that next id.

    The recall query `SELECT ... WHERE user_input LIKE '%q%'` followed by
    `fetchone()` has no `ORDER BY`; this model fixes the order to the
    first matching row in insertion order. */
module Memory {
  import opened Wrappers
  import opened Text
  import Rules

  datatype Row = Row(id: int, userInput: string, botResponse: string)

  /** The table's contents together with the next id it will hand out. */
  datatype Memory = Memory(rows: seq<Row>, nextId: int)

  /** The table's invariant: ids are positive, strictly increasing in
      insertion order and all below `nextId`; every stored input is
      lower-case, since the resolver lower-cases before it writes. */
  ghost predicate ValidMemory(m: Memory) {
    1 <= m.nextId
    && (forall i :: 0 <= i < |m.rows| ==> 1 <= m.rows[i].id < m.nextId && IsLower(m.rows[i].userInput))
    && (forall i, j :: 0 <= i < j < |m.rows| ==> m.rows[i].id < m.rows[j].id)
  }

  /** No stored input occurs inside an earlier stored input. Every table
      the resolver builds from an empty one has this shape, because a row
      is written only when no earlier input contains it; so each stored
      input recalls its own row. */
  ghost predicate RecallFresh(m: Memory) {
    forall i, j :: 0 <= i < j < |m.rows| ==> !Contains(m.rows[i].userInput, m.rows[j].userInput)
  }

  /** A row is recalled by query `q` when its stored input contains `q`
      (`user_input LIKE '%q%'`). */
  predicate Matches(row: Row, q: string) {
    Contains(row.userInput, q)
  }

  /** Index of the first row at or after `from` that matches `q`. */
  function FirstMatchFrom(rows: seq<Row>, q: string, from: nat): (k: Option<nat>)
    requires from <= |rows|
    ensures k.Some? ==> from <= k.value < |rows| && Matches(rows[k.value], q)
                        && forall j :: from <= j < k.value ==> !Matches(rows[j], q)
    ensures k.None? ==> forall j :: from <= j < |rows| ==> !Matches(rows[j], q)
    decreases |rows| - from
  {
    if from == |rows| then None
    else if Matches(rows[from], q) then Some(from)
    else FirstMatchFrom(rows, q, from + 1)
  }

  function FirstMatch(rows: seq<Row>, q: string): (k: Option<nat>) {
    FirstMatchFrom(rows, q, 0)
  }

  /** What the recall query fetches: the stored response of the first
      matching row, or `None`. */
  function Recalled(rows: seq<Row>, q: string): (r: Option<string>)
    ensures r.Some? <==> exists i :: 0 <= i < |rows| && Matches(rows[i], q)
  {
    match FirstMatch(rows, q)
    case None => None
    case Some(k) => Some(rows[k].botResponse)
  }

  /** The row the `INSERT` of line 129 adds. */
  function Append(m: Memory, userInput: string, botResponse: string): (m': Memory)
    ensures ValidMemory(m) && IsLower(userInput) ==> ValidMemory(m')
    ensures |m'.rows| == |m.rows| + 1 && m'.rows[..|m.rows|] == m.rows
    ensures m'.rows[|m.rows|].userInput == userInput && m'.rows[|m.rows|].botResponse == botResponse
    ensures ValidMemory(m) ==> forall i :: 0 <= i < |m.rows| ==> m.rows[i].id < m'.rows[|m.rows|].id
  {
    Memory(m.rows + [Row(m.nextId, userInput, botResponse)], m.nextId + 1)
  }

  /** One exchange of `get_bot_response` at the time `hour:minute`: the
      new table and the response. A recalled answer is returned as it is
      and writes nothing; otherwise the rule table answers and the
      lower-cased input is stored with that answer. */
  function Respond(m: Memory, input: string, hour: nat, minute: nat): (out: (Memory, string))
    requires hour < 24 && minute < 60
    ensures ValidMemory(m) ==> ValidMemory(out.0)
    ensures RecallFresh(m) ==> RecallFresh(out.0)
    ensures m.rows <= out.0.rows && |out.0.rows| <= |m.rows| + 1
  {
    var q := Lower(input);
    match Recalled(m.rows, q)
    case Some(saved) => (m, saved)
    case None =>
      LowerIsLower(input);
      var response := Rules.RuleResponse(q, hour, minute);
      (Append(m, q, response), response)
  }

  /** A hit: when row `k` is the first whose input contains the
      lower-cased query, its stored response is returned and the table is
      left exactly as it was. */
  lemma RespondHit(m: Memory, input: string, hour: nat, minute: nat, k: nat)
    requires hour < 24 && minute < 60
    requires k < |m.rows| && Matches(m.rows[k], Lower(input))
    requires forall j :: 0 <= j < k ==> !Matches(m.rows[j], Lower(input))
    ensures Respond(m, input, hour, minute) == (m, m.rows[k].botResponse)
  {
  }

  /** A miss: when no stored input contains the lower-cased query, the
      rule table answers and exactly one row is appended, holding the
      lower-cased input and that answer, under an id greater than every
      id already in the table; the earlier rows stay as they were. */
  lemma RespondMiss(m: Memory, input: string, hour: nat, minute: nat)
    requires hour < 24 && minute < 60
    requires ValidMemory(m)
    requires forall j :: 0 <= j < |m.rows| ==> !Matches(m.rows[j], Lower(input))
    ensures var (m', r) := Respond(m, input, hour, minute);
      && r == Rules.RuleResponse(Lower(input), hour, minute)
      && |m'.rows| == |m.rows| + 1
      && m'.rows[..|m.rows|] == m.rows
      && m'.rows[|m.rows|].userInput == Lower(input)
      && m'.rows[|m.rows|].botResponse == r
      && (forall i :: 0 <= i < |m.rows| ==> m.rows[i].id < m'.rows[|m.rows|].id)
      && m'.nextId == m.nextId + 1
  {
  }

  /** Recall hits exactly when some stored input contains the
      lower-cased query; the table grows exactly on a miss. */
  lemma RespondWritesIffMiss(m: Memory, input: string, hour: nat, minute: nat)
    requires hour < 24 && minute < 60
    ensures (Respond(m, input, hour, minute).0 == m)
        <==> (exists i :: 0 <= i < |m.rows| && Contains(m.rows[i].userInput, Lower(input)))
  {
    var q := Lower(input);
    if Recalled(m.rows, q).None? {
      assert |Respond(m, input, hour, minute).0.rows| == |m.rows| + 1;
    }
  }

  /** Asking again gets the same answer without a second write: after
      an exchange for `input`, a second exchange for the same input, at
      any time, returns the same response and leaves the table unchanged. */
  lemma {:induction false} RespondTwice(m: Memory, input: string, h1: nat, m1: nat, h2: nat, m2: nat)
    requires h1 < 24 && m1 < 60 && h2 < 24 && m2 < 60
    ensures var (after, r) := Respond(m, input, h1, m1);
      Respond(after, input, h2, m2) == (after, r)
  {
    var q := Lower(input);
    var (after, r) := Respond(m, input, h1, m1);
    LowerIdempotent(input);
    match FirstMatch(m.rows, q)
    case Some(k) =>
      RespondHit(m, input, h2, m2, k);
    case None =>
      ContainsSelf(q);
      assert after.rows[|m.rows|].userInput == q;
      forall j | 0 <= j < |m.rows| ensures !Matches(after.rows[j], q) {
        assert after.rows[j] == m.rows[j];
      }
      RespondHit(after, input, h2, m2, |m.rows|);
  }

  /** A recall decided in a table stays decided: whatever exchange comes
      next, the first row matching `q` is the same row, because an
      exchange only ever appends after the existing rows. */
  lemma RecallSurvivesExchange(m: Memory, q: string, k: nat, other: string, hour: nat, minute: nat)
    requires hour < 24 && minute < 60
    requires FirstMatch(m.rows, q) == Some(k)
    ensures var m' := Respond(m, other, hour, minute).0;
      k < |m.rows| && FirstMatch(m'.rows, q) == Some(k) && m'.rows[k] == m.rows[k]
  {
    var m' := Respond(m, other, hour, minute).0;
    assert m.rows <= m'.rows;
    forall j | 0 <= j <= k ensures m'.rows[j] == m.rows[j] {
    }
  }

  /** Asking again after any other exchange in between still gets the
      first answer and writes nothing. */
  lemma RepeatAfterOther(m: Memory, input: string, other: string,
                         h1: nat, m1: nat, h2: nat, m2: nat, h3: nat, m3: nat)
    requires h1 < 24 && m1 < 60 && h2 < 24 && m2 < 60 && h3 < 24 && m3 < 60
    ensures var (after, r) := Respond(m, input, h1, m1);
      var between := Respond(after, other, h2, m2).0;
      Respond(between, input, h3, m3) == (between, r)
  {
    var q := Lower(input);
    var (after, r) := Respond(m, input, h1, m1);
    RespondTwice(m, input, h1, m1, h3, m3);
    LowerIdempotent(input);
    var k :| FirstMatch(after.rows, q) == Some(k) && after.rows[k].botResponse == r;
    RecallSurvivesExchange(after, q, k, other, h2, m2);
  }

  /** Every input stored by earlier exchanges gets its own stored
      response back, and nothing is written: the store replays what it
      learnt, whatever time it is now. */
  lemma StoredInputRecallsItsResponse(m: Memory, k: nat, hour: nat, minute: nat)
    requires hour < 24 && minute < 60
    requires ValidMemory(m) && RecallFresh(m) && k < |m.rows|
    ensures Respond(m, m.rows[k].userInput, hour, minute) == (m, m.rows[k].botResponse)
  {
    var q := m.rows[k].userInput;
    LowerOfLower(q);
    ContainsSelf(q);
    RespondHit(m, q, hour, minute, k);
  }

  /** A row written on a miss records which rule produced its response. */
  lemma StoredResponseNamesRule(m: Memory, input: string, hour: nat, minute: nat)
    requires hour < 24 && minute < 60
    requires forall j :: 0 <= j < |m.rows| ==> !Matches(m.rows[j], Lower(input))
    ensures var m' := Respond(m, input, hour, minute).0;
      |m'.rows| == |m.rows| + 1
      && Rules.RuleOfReply(m'.rows[|m.rows|].botResponse) == Some(Rules.Classify(Lower(input)))
  {
    Rules.ReplyNamesRule(Rules.Classify(Lower(input)), hour, minute);
  }

  /** A longer query does not recall a shorter stored input it contains:
      a store holding only `stored` misses every proper superstring of it. */
  lemma SuperstringMisses(stored: string, response: string, input: string, hour: nat, minute: nat)
    requires hour < 24 && minute < 60
    requires Contains(Lower(input), stored) && Lower(input) != stored
    ensures var m := Memory([Row(1, stored, response)], 2);
      |Respond(m, input, hour, minute).0.rows| == 2
  {
    var m := Memory([Row(1, stored, response)], 2);
    if Contains(stored, Lower(input)) {
      ContainsAntisymmetric(stored, Lower(input));
    }
    assert !Matches(m.rows[0], Lower(input));
    assert Recalled(m.rows, Lower(input)).None?;
  }

  /** A stored answer is replayed for an input it was stored under,
      whatever its case, and nothing is written. */
  lemma RecallExample(hour: nat, minute: nat)
    requires hour < 24 && minute < 60
    ensures var m := Memory([Row(1, "pizza", "Great choice!")], 2);
      Respond(m, "Pizza", hour, minute) == (m, "Great choice!")
  {
    var m := Memory([Row(1, "pizza", "Great choice!")], 2);
    assert Lower("Pizza") == "pizza" by {
      assert Lower("Pizza") == [LowerChar('P')] + Lower("izza");
    }
    ContainsSelf("pizza");
    RespondHit(m, "Pizza", hour, minute, 0);
  }

  /** On an empty table, an input that says "hello" is answered by the
      greeting rule and stored lower-cased under id 1. */
  lemma FreshGreeting(input: string, hour: nat, minute: nat)
    requires hour < 24 && minute < 60
    requires Contains(Lower(input), "hello")
    ensures Respond(Memory([], 1), input, hour, minute)
      == (Memory([Row(1, Lower(input), Rules.GreetingReply)], 2),
          Rules.GreetingReply)
  {
  }

  /** The live table behind the module-level `conn`/`cursor`. */
  class MemoryStore {
    var rows: seq<Row>
    var nextId: int

    function State(): Memory
      reads this
    {
      Memory(rows, nextId)
    }

    ghost predicate Valid()
      reads this
    {
      ValidMemory(State())
    }

    /** `CREATE TABLE IF NOT EXISTS` on a fresh database: no rows, and the
        first id handed out will be 1. */
    constructor ()
      ensures Valid() && RecallFresh(State()) && rows == [] && nextId == 1
    {
      rows := [];
      nextId := 1;
    }

    /** The recall query of lines 109-110: scans the rows in insertion
        order and returns the response of the first whose input contains
        `q`. */
    method Recall(q: string) returns (saved: Option<string>)
      ensures saved.Some? <==> exists i :: 0 <= i < |rows| && Contains(rows[i].userInput, q)
      ensures saved.Some? ==> exists k :: 0 <= k < |rows| && Contains(rows[k].userInput, q)
                                && saved.value == rows[k].botResponse
                                && forall j :: 0 <= j < k ==> !Contains(rows[j].userInput, q)
    {
      var i := 0;
      while i < |rows|
        invariant 0 <= i <= |rows|
        invariant forall j :: 0 <= j < i ==> !Contains(rows[j].userInput, q)
      {
        if Contains(rows[i].userInput, q) {
          return Some(rows[i].botResponse);
        }
        i := i + 1;
      }
      return None;
    }

    /** The `INSERT` and `commit` of lines 129-130: appends one row under
        the next id and returns that id. */
    method Insert(userInput: string, botResponse: string) returns (id: int)
      requires Valid() && IsLower(userInput)
      modifies this
      ensures Valid()
      ensures State() == Append(old(State()), userInput, botResponse)
      ensures id == old(nextId) && forall i :: 0 <= i < |old(rows)| ==> old(rows)[i].id < id
    {
      id := nextId;
      rows := rows + [Row(id, userInput, botResponse)];
      nextId := nextId + 1;
    }

    /** `get_bot_response(input)` at the time `hour:minute`. */
    method Resolve(input: string, hour: nat, minute: nat) returns (response: string)
      requires Valid() && hour < 24 && minute < 60
      modifies this
      ensures Valid() && (RecallFresh(old(State())) ==> RecallFresh(State()))
      ensures (State(), response) == Respond(old(State()), input, hour, minute)
    {
      var q := Lower(input);
      var saved := Recall(q);
      if saved.Some? {
        ghost var k :| 0 <= k < |rows| && Contains(rows[k].userInput, q)
                       && saved.value == rows[k].botResponse
                       && forall j :: 0 <= j < k ==> !Contains(rows[j].userInput, q);
        RespondHit(State(), input, hour, minute, k);
        return saved.value;
      }
      response := Rules.RuleResponse(q, hour, minute);
      LowerIsLower(input);
      var _ := Insert(q, response);
    }
  }
}
