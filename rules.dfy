/** The keyword rule table consulted when memory has no answer
    (offline_online_whisper_flask_chatbot.py, lines 115-126). Rules are
    tried in a fixed order and the first whose keyword occurs in the
    (already lower-cased) input wins. */
module Rules {
  import opened Wrappers
  import opened Text
  import Clock

  datatype Rule = Greeting | Identity | CurrentTime | Farewell | Thanks | Fallback

  /** The rule table as data: each entry lists the keywords of one rule;
      an input that matches no entry falls back to `Fallback`. */
  const RuleTable: seq<(seq<string>, Rule)> := [
    (["hello", "hi"], Greeting),
    (["your name"], Identity),
    (["time"], CurrentTime),
    (["bye"], Farewell),
    (["thank"], Thanks)
  ]

  /** Some keyword of `keys` occurs in `q`. */
  predicate AnyKeyword(keys: seq<string>, q: string) {
    exists k :: k in keys && Contains(q, k)
  }

  /** Reference reading of an ordered rule table: the rule of the first
      entry one of whose keywords occurs in `q`, else `Fallback`. */
  function FirstMatching(table: seq<(seq<string>, Rule)>, q: string): (rule: Rule) {
    if table == [] then Fallback
    else if AnyKeyword(table[0].0, q) then table[0].1
    else FirstMatching(table[1..], q)
  }

  /** The first-match property of an ordered table: the chosen entry's
      keywords match, no earlier entry's do, and `Fallback` is chosen
      exactly when no entry matches. */
  lemma {:induction false} FirstMatchingIsFirst(table: seq<(seq<string>, Rule)>, q: string)
    requires forall e :: e in table ==> e.1 != Fallback
    ensures FirstMatching(table, q) == Fallback <==>
              forall j :: 0 <= j < |table| ==> !AnyKeyword(table[j].0, q)
    ensures FirstMatching(table, q) != Fallback ==>
              exists j :: 0 <= j < |table| && table[j].1 == FirstMatching(table, q)
                && AnyKeyword(table[j].0, q)
                && forall i :: 0 <= i < j ==> !AnyKeyword(table[i].0, q)
  {
    if table != [] && !AnyKeyword(table[0].0, q) {
      assert forall e :: e in table[1..] ==> e in table;
      FirstMatchingIsFirst(table[1..], q);
      if FirstMatching(table, q) != Fallback {
        var j :| 0 <= j < |table[1..]| && table[1..][j].1 == FirstMatching(table, q)
                 && AnyKeyword(table[1..][j].0, q)
                 && forall i :: 0 <= i < j ==> !AnyKeyword(table[1..][i].0, q);
        assert table[j + 1] == table[1..][j];
        forall i | 0 <= i < j + 1 ensures !AnyKeyword(table[i].0, q) {
          if i > 0 { assert table[i] == table[1..][i - 1]; }
        }
      } else {
        forall j | 0 <= j < |table| ensures !AnyKeyword(table[j].0, q) {
          if j > 0 { assert table[j] == table[1..][j - 1]; }
        }
      }
    } else if table != [] {
      assert table[0] in table;
    }
  }

  /** The `if`/`elif` chain of lines 115-126. */
  function Classify(q: string): (rule: Rule) {
    if Contains(q, "hello") || Contains(q, "hi") then Greeting
    else if Contains(q, "your name") then Identity
    else if Contains(q, "time") then CurrentTime
    else if Contains(q, "bye") then Farewell
    else if Contains(q, "thank") then Thanks
    else Fallback
  }

  /** The `if`/`elif` chain means exactly the first-match reading of
      `RuleTable`: hello/hi, then "your name", "time", "bye", "thank". */
  lemma ClassifyIsFirstMatch(q: string)
    ensures Classify(q) == FirstMatching(RuleTable, q)
  {
    var t := RuleTable;
    assert AnyKeyword(t[0].0, q) <==> Contains(q, "hello") || Contains(q, "hi") by {
      assert "hello" in t[0].0 && "hi" in t[0].0;
    }
    assert AnyKeyword(t[1].0, q) <==> Contains(q, "your name") by {
      assert "your name" in t[1].0;
    }
    assert AnyKeyword(t[2].0, q) <==> Contains(q, "time") by {
      assert "time" in t[2].0;
    }
    assert AnyKeyword(t[3].0, q) <==> Contains(q, "bye") by {
      assert "bye" in t[3].0;
    }
    assert AnyKeyword(t[4].0, q) <==> Contains(q, "thank") by {
      assert "thank" in t[4].0;
    }
    assert FirstMatching(t[5..], q) == Fallback;
    assert FirstMatching(t[4..], q) == if AnyKeyword(t[4].0, q) then Thanks else Fallback;
    assert FirstMatching(t[3..], q) == if AnyKeyword(t[3].0, q) then Farewell else FirstMatching(t[4..], q);
    assert FirstMatching(t[2..], q) == if AnyKeyword(t[2].0, q) then CurrentTime else FirstMatching(t[3..], q);
    assert FirstMatching(t[1..], q) == if AnyKeyword(t[1].0, q) then Identity else FirstMatching(t[2..], q);
  }

  /** The fixed replies of lines 116-126. */
  const GreetingReply := "Hi there! How can I help you?"
  const IdentityReply := "I\U{2019}m your hybrid voice assistant."
  const FarewellReply := "Goodbye! Have a great day!"
  const ThanksReply := "You\U{2019}re very welcome!"
  const FallbackReply := "I'm still learning, " + "but I can understand many languages!"

  /** The reply text of each rule; the time reply shows the given time. */
  function Reply(rule: Rule, hour: nat, minute: nat): (r: string)
    requires hour < 24 && minute < 60
  {
    match rule
    case Greeting => GreetingReply
    case Identity => IdentityReply
    case CurrentTime => "The current time is " + Clock.FormatTime(hour, minute) + "."
    case Farewell => FarewellReply
    case Thanks => ThanksReply
    case Fallback => FallbackReply
  }

  /** The response the rule table gives for the lower-cased input `q`
      at the time `hour:minute`. */
  function RuleResponse(q: string, hour: nat, minute: nat): (r: string)
    requires hour < 24 && minute < 60
  {
    Reply(Classify(q), hour, minute)
  }

  /** The first two characters of each rule's reply. */
  function Signature(rule: Rule): (char, char) {
    match rule
    case Greeting => ('H', 'i')
    case Identity => ('I', '\U{2019}')
    case CurrentTime => ('T', 'h')
    case Farewell => ('G', 'o')
    case Thanks => ('Y', 'o')
    case Fallback => ('I', '\'')
  }

  lemma ReplySignature(rule: Rule, hour: nat, minute: nat)
    requires hour < 24 && minute < 60
    ensures |Reply(rule, hour, minute)| >= 2
    ensures (Reply(rule, hour, minute)[0], Reply(rule, hour, minute)[1]) == Signature(rule)
  {
    var r := Reply(rule, hour, minute);
    match rule
    case CurrentTime =>
      assert r == "The current time is " + Clock.FormatTime(hour, minute) + ".";
      assert r[0] == 'T' && r[1] == 'h';
    case Greeting => assert r[0] == 'H' && r[1] == 'i';
    case Identity => assert r[0] == 'I' && r[1] == '\U{2019}';
    case Farewell => assert r[0] == 'G' && r[1] == 'o';
    case Thanks => assert r[0] == 'Y' && r[1] == 'o';
    case Fallback => assert r[0] == 'I' && r[1] == '\'';
  }

  /** Tells from a reply which rule gave it. */
  function RuleOfReply(r: string): (rule: Option<Rule>) {
    if |r| < 2 then None
    else if (r[0], r[1]) == Signature(Greeting) then Some(Greeting)
    else if (r[0], r[1]) == Signature(Identity) then Some(Identity)
    else if (r[0], r[1]) == Signature(CurrentTime) then Some(CurrentTime)
    else if (r[0], r[1]) == Signature(Farewell) then Some(Farewell)
    else if (r[0], r[1]) == Signature(Thanks) then Some(Thanks)
    else if (r[0], r[1]) == Signature(Fallback) then Some(Fallback)
    else None
  }

  /** Every reply names its rule: reading the rule back from a reply
      gives the rule that produced it. */
  lemma ReplyNamesRule(rule: Rule, hour: nat, minute: nat)
    requires hour < 24 && minute < 60
    ensures RuleOfReply(Reply(rule, hour, minute)) == Some(rule)
  {
    ReplySignature(rule, hour, minute);
  }

  /** The six rules give six different replies, and the time reply
      determines the time it shows: the reply tells which rule fired. */
  lemma {:induction false} ReplyInjective(r1: Rule, h1: nat, m1: nat, r2: Rule, h2: nat, m2: nat)
    requires h1 < 24 && m1 < 60 && h2 < 24 && m2 < 60
    requires Reply(r1, h1, m1) == Reply(r2, h2, m2)
    ensures r1 == r2
    ensures r1 == CurrentTime ==> h1 == h2 && m1 == m2
  {
    ReplyNamesRule(r1, h1, m1);
    ReplyNamesRule(r2, h2, m2);
    if r1 == CurrentTime && r2 == CurrentTime {
      var s1, s2 := Reply(r1, h1, m1), Reply(r2, h2, m2);
      assert s1[20..28] == Clock.FormatTime(h1, m1);
      assert s2[20..28] == Clock.FormatTime(h2, m2);
      Clock.FormatInjective(h1, m1, h2, m2);
    }
  }

  /** Order matters: an input that mentions both a greeting keyword and
      "time" is greeted, and "hi" also matches inside other words. */
  lemma GreetingBeforeTime(hour: nat, minute: nat)
    requires hour < 24 && minute < 60
    ensures RuleResponse("this time", hour, minute) == GreetingReply
  {
    ContainsAt("this time", "hi", 1);
    assert Classify("this time") == Greeting;
  }
}
