/** Topic filters: what the client accepts against the level-by-level matching of section 4.7 of MQTT 3.1.1. */
module TopicFilters {
  // ---- The client's test --------------------------------------------------------------

  /** `strncmp(a, b, n) == 0` on NUL-free texts, where `b` has at least `n` characters. */
  predicate SamePrefix(a: string, b: string, n: nat)
    requires n <= |b|
  {
    n <= |a| && a[..n] == b[..n]
  }

  predicate TopicMatch(filter: string, topic: string) {
    || filter == "#"
    || filter == topic
    || (&& |filter| > 1
        && filter[|filter| - 1] == '#'
        && filter[|filter| - 2] == '/'
        && SamePrefix(topic, filter, |filter| - 1))
  }

  // ---- The standard's -----------------------------------------------------------------

  function FirstLevel(s: string): (n: nat)
    ensures n <= |s| && '/' !in s[..n] && (n < |s| ==> s[n] == '/')
  {
    if s == "" || s[0] == '/' then 0 else FirstLevel(s[1..]) + 1
  }

  function Levels(s: string): (r: seq<string>)
    ensures r != []
    decreases |s|
  {
    var n := FirstLevel(s);
    if n == |s| then [s] else [s[..n]] + Levels(s[n + 1..])
  }

  function Joined(levels: seq<string>): string
    requires levels != []
  {
    if |levels| == 1 then levels[0] else levels[0] + "/" + Joined(levels[1..])
  }

  /** Levels are the pieces between the slashes. */
  lemma {:induction false} LevelsArePieces(s: string)
    ensures Joined(Levels(s)) == s
    ensures forall i :: 0 <= i < |Levels(s)| ==> '/' !in Levels(s)[i]
    decreases |s|
  {
    var n := FirstLevel(s);
    if n < |s| {
      LevelsArePieces(s[n + 1..]);
      assert s == s[..n] + "/" + s[n + 1..];
      assert Levels(s)[1..] == Levels(s[n + 1..]);
    } else {
      assert s[..n] == s;
    }
  }

  /** `#` as the last level takes any number of remaining levels, none included; `+` takes one. */
  predicate LevelsMatch(filter: seq<string>, topic: seq<string>) {
    if filter == [] then topic == []
    else if filter == ["#"] then true
    else
      && topic != []
      && (filter[0] == "+" || filter[0] == topic[0])
      && LevelsMatch(filter[1..], topic[1..])
  }

  /** Level by level: each level is taken by an equal one or by `+`, and behind a last `#` any number of them. */
  lemma {:induction false} MatchedLevels(filter: seq<string>, topic: seq<string>)
    ensures LevelsMatch(filter, topic) <==>
      if filter != [] && filter[|filter| - 1] == "#" && |filter| - 1 <= |topic|
         && (forall i :: 0 <= i < |filter| - 1 ==> filter[i] == "+" || filter[i] == topic[i])
      then true
      else |filter| == |topic| && forall i :: 0 <= i < |filter| ==> filter[i] == "+" || filter[i] == topic[i]
  {
    if filter != [] && filter != ["#"] && topic != [] {
      MatchedLevels(filter[1..], topic[1..]);
      assert forall i :: 0 < i < |filter| ==> filter[i] == filter[1..][i - 1];
      assert forall i :: 0 < i < |topic| ==> topic[i] == topic[1..][i - 1];
      assert forall i :: 0 <= i < |filter| - 1 ==> filter[1..][i] == filter[i + 1];
      assert forall i :: 0 <= i < |topic| - 1 ==> topic[1..][i] == topic[i + 1];
    }
  }

  /** A filter that starts with a wildcard does not match a topic that starts with `$`. */
  predicate MqttMatch(filter: string, topic: string) {
    && LevelsMatch(Levels(filter), Levels(topic))
    && !(topic != "" && topic[0] == '$' && filter != "" && filter[0] in {'#', '+'})
  }

  /** Topic names hold no wildcards. */
  predicate WildcardFree(topic: string) {
    '+' !in topic && '#' !in topic
  }

  // ---- The two compared ---------------------------------------------------------------

  lemma LevelsOf(s: string, n: nat)
    requires n < |s| && n == FirstLevel(s)
    ensures s == s[..n] + "/" + s[n + 1..]
    ensures |Levels(s)| > 1 && Levels(s)[0] == s[..n] && Levels(s)[1..] == Levels(s[n + 1..])
  {
    hide FirstLevel;
    assert |s[n..]| > 0 && s[n..] == "/" + s[n + 1..];
    assert s == s[..n] + s[n..];
    var r := Levels(s[n + 1..]);
    assert Levels(s) == [s[..n]] + r;
    assert ([s[..n]] + r)[1..] == r;
  }

  /** Both tests look past an equal first level. */
  lemma MatchPastLevel(f: string, t: string, n: nat)
    requires n < |f| && n < |t| && f[n] == t[n] == '/' && f[..n] == t[..n]
    requires '#' !in t
    ensures TopicMatch(f, t) == TopicMatch(f[n + 1..], t[n + 1..])
    ensures f == t + "/#" <==> f[n + 1..] == t[n + 1..] + "/#"
  {
    var a, b, m := f[n + 1..], t[n + 1..], |f| - 1;
    Prepended(f[..n + 1], a, b, f, t);
    Prepended(f[..n + 1], a, b + "/#", f, t + "/#");
    if m > n && f[m] == '#' && f[m - 1] == '/' {
      assert f[..m] == f[..n + 1] + a[..m - n - 1];
      if m <= |t| {
        assert t[..m] == t[..n + 1] + b[..m - n - 1];
        Prepended(f[..n + 1], a[..m - n - 1], b[..m - n - 1], f[..m], t[..m]);
      }
    }
  }

  lemma Prepended(p: string, a: string, b: string, x: string, y: string)
    requires x == p + a && y == p + b
    ensures x == y <==> a == b
  {
    assert a == x[|p|..] && b == y[|p|..];
  }

  /** An accepted filter with a slash shares its first level with the topic. */
  lemma AcceptedFirstLevel(f: string, t: string)
    requires FirstLevel(f) < |f| && TopicMatch(f, t)
    ensures FirstLevel(t) == FirstLevel(f) < |t| && f[..FirstLevel(f)] == t[..FirstLevel(f)]
  {
    var i := FirstLevel(f);
    if f != t {
      var m := |f| - 1;
      assert f[m] == '#' && f[m - 1] == '/' && f[..m] == t[..m];
      assert forall k :: 0 <= k < m ==> f[..m][k] == f[k] && t[..m][k] == t[k];
      assert f[..i] == f[..m][..i] && t[..i] == t[..m][..i];
      FirstSlash(t, i);
    }
  }

  lemma {:induction false} FirstSlash(s: string, i: nat)
    requires i < |s| && s[i] == '/' && '/' !in s[..i]
    ensures FirstLevel(s) == i
  {
    if i > 0 {
      assert s[..i][0] == s[0];
      assert s[1..][..i - 1] == s[..i][1..];
      FirstSlash(s[1..], i - 1);
    }
  }

  lemma {:induction false} AgreeOnLevels(f: string, t: string)
    requires WildcardFree(t)
    ensures TopicMatch(f, t) <==> LevelsMatch(Levels(f), Levels(t)) && '+' !in f && f != t + "/#"
    decreases |f|
  {
    var i, j := FirstLevel(f), FirstLevel(t);
    if i == |f| {
      AgreeOnOneLevel(f, t);
    } else {
      LevelsOf(f, i);
      assert Levels(f) != ["#"];
      if j == |t| || f[..i] != t[..j] {
        DifferentFirstLevels(f, t);
      } else {
        LevelsOf(t, j);
        MatchPastLevel(f, t, i);
        AgreeOnLevels(f[i + 1..], t[i + 1..]);
        assert '+' in f <==> '+' in f[i + 1..] by {
          assert '+' !in t[..i];
          assert f == t[..i] + "/" + f[i + 1..];
        }
      }
    }
  }

  lemma AgreeOnOneLevel(f: string, t: string)
    requires WildcardFree(t) && FirstLevel(f) == |f|
    ensures TopicMatch(f, t) <==> LevelsMatch(Levels(f), Levels(t)) && '+' !in f && f != t + "/#"
  {
    var j := FirstLevel(t);
    assert f[..|f|] == f && '/' !in f;
    assert (t + "/#")[|t|] == '/';
    if j < |t| {
      LevelsOf(t, j);
      assert Levels(t)[1..] != [];
    } else {
      assert Levels(t)[1..] == [];
    }
    assert Levels(f)[1..] == [];
  }

  lemma DifferentFirstLevels(f: string, t: string)
    requires WildcardFree(t) && FirstLevel(f) < |f|
    requires FirstLevel(t) == |t| || f[..FirstLevel(f)] != t[..FirstLevel(t)]
    ensures !TopicMatch(f, t)
    ensures !(LevelsMatch(Levels(f), Levels(t)) && '+' !in f && f != t + "/#")
  {
    hide LevelsMatch, Levels, TopicMatch;
    if TopicMatch(f, t) { AcceptedFirstLevel(f, t); }
    if LevelsMatch(Levels(f), Levels(t)) && '+' !in f { OnlyParent(f, t); }
  }

  /** Without `+`, a filter that matches past a different first level is the parent's. */
  lemma OnlyParent(f: string, t: string)
    requires FirstLevel(f) < |f| && LevelsMatch(Levels(f), Levels(t)) && '+' !in f
    requires FirstLevel(t) == |t| || f[..FirstLevel(f)] != t[..FirstLevel(t)]
    ensures f == t + "/#"
  {
    hide Levels;
    var i, j := FirstLevel(f), FirstLevel(t);
    LevelsOf(f, i);
    var fs, ts := Levels(f), Levels(t);
    assert f[..i] != "+" by { if i == 1 { assert f[..i][0] == f[0]; } }
    assert fs[0] == ts[0] && LevelsMatch(fs[1..], ts[1..]);
    if j < |t| {
      LevelsOf(t, j);
      assert false;
    } else {
      OneLevel(t);
      assert fs[1..] == ["#"];
      LevelsArePieces(f[i + 1..]);
      assert Joined(["#"]) == "#";
    }
  }

  lemma OneLevel(t: string)
    requires FirstLevel(t) == |t|
    ensures Levels(t) == [t] && Levels(t)[1..] == []
  {
  }

  /**
   * For every topic name: the client's test and the standard's differ in three ways only. The
   * client lets `#` take topics that start with `$`; it gives `+` no meaning; and `x/#` does
   * not take its parent `x`.
   */
  lemma ClientAgainstStandard(f: string, t: string)
    requires WildcardFree(t)
    ensures TopicMatch(f, t) && !(f == "#" && t != "" && t[0] == '$')
       <==> MqttMatch(f, t) && '+' !in f && f != t + "/#"
  {
    hide LevelsMatch, Levels, TopicMatch;
    AgreeOnLevels(f, t);
    if TopicMatch(f, t) { AcceptedStart(f, t); }
  }

  lemma AcceptedStart(f: string, t: string)
    requires WildcardFree(t) && TopicMatch(f, t)
    ensures f == "#" || f == "" || f[0] !in {'#', '+'}
  {
    if f != "#" && f != t { assert f[..|f| - 1][0] == f[0] && t[..|f| - 1][0] == t[0]; }
  }

  /** What is accepted is a match, but for `#` on a topic starting with `$`. */
  lemma AcceptedIsMatch(f: string, t: string)
    requires WildcardFree(t) && TopicMatch(f, t)
    ensures MqttMatch(f, t) <==> !(f == "#" && t != "" && t[0] == '$')
  {
    ClientAgainstStandard(f, t);
  }

  /** `test_mqtt.cpp`: which of its filters take the topic. */
  lemma SensorTopics()
    ensures TopicMatch("sensor/temp", "sensor/temp") && TopicMatch("sensor/#", "sensor/temp")
    ensures TopicMatch("#", "sensor/temp") && !TopicMatch("sensor/humidity", "sensor/temp")
    ensures !TopicMatch("sensor/+", "sensor/temp") && !TopicMatch("sensor/#", "sensor")
  {
    var f, t := "sensor/#", "sensor/temp";
    assert f[..7] == "sensor/" == t[..7];
  }

  /** The standard takes more. */
  lemma SensorMatches()
    ensures MqttMatch("sensor/+", "sensor/temp") && MqttMatch("sensor/#", "sensor")
    ensures !MqttMatch("sensor/+", "sensor") && !MqttMatch("sensor", "sensor/temp")
  {
    hide Levels;
    SplitLevels("sensor", "+");
    SplitLevels("sensor", "temp");
    SplitLevels("sensor", "#");
    OneLevelOf("sensor");
    assert "sensor" + "/" + "+" == "sensor/+" && "sensor" + "/" + "temp" == "sensor/temp" && "sensor" + "/" + "#" == "sensor/#";
    TwoLevels("sensor", "+", "temp");
    TwoLevels("sensor", "#", "temp");
  }

  lemma TwoLevels(a: string, b: string, c: string)
    requires a != "#" && a != "+"
    ensures LevelsMatch([a, b], [a, c]) <==> b == "#" || b == "+" || b == c
    ensures LevelsMatch([a, b], [a]) <==> b == "#"
    ensures !LevelsMatch([a], [a, c])
  {
    MatchedLevels([a, b], [a, c]);
    MatchedLevels([a, b], [a]);
    MatchedLevels([a], [a, c]);
  }

  lemma {:induction false} OneLevelOf(s: string)
    requires '/' !in s
    ensures FirstLevel(s) == |s| && Levels(s) == [s]
  {
  }

  lemma SplitLevels(a: string, b: string)
    requires '/' !in a && '/' !in b
    ensures Levels(a + "/" + b) == [a, b]
  {
    var s := a + "/" + b;
    assert s[..|a|] == a && s[|a| + 1..] == b;
    FirstSlash(s, |a|);
    LevelsOf(s, |a|);
    OneLevelOf(b);
    assert Levels(s) == [a] + [b];
  }

  /** `#` stands only as the whole last level, `+` only as a whole level. */
  predicate WellFormed(filter: string) {
    forall i :: 0 <= i < |filter| ==>
      && (filter[i] == '#' ==> i == |filter| - 1)
      && (filter[i] in {'#', '+'} ==> (i == 0 || filter[i - 1] == '/') && (i == |filter| - 1 || filter[i + 1] == '/'))
  }

  /** Whatever filter takes a topic is one the standard allows, although the client never checks. */
  lemma AcceptedIsWellFormed(f: string, t: string)
    requires WildcardFree(t) && TopicMatch(f, t)
    ensures WellFormed(f)
  {
    if f != "#" && f != t {
      var m := |f| - 1;
      forall i | 0 <= i < m
        ensures f[i] !in {'#', '+'}
      {
        assert f[..m][i] == t[..m][i];
      }
    }
  }
}

/** The client's state over its calls, and what a run of calls adds up to. */
module PubSubModel {
  import opened MachineInts
  import opened TopicFilters

  /** A text handed over as a C string. */
  type CString = s: string | '\0' !in s

  datatype Message = Message(topic: CString, payload: seq<byte>)

  datatype State = State(connected: bool, callback: bool, subscriptions: seq<CString>,
                         published: seq<Message>, delivered: seq<Message>)

  const INITIAL := State(false, false, [], [], [])

  datatype Call =
    | Connect
    | Disconnect
    | SetCallback(present: bool)
    | Subscribe(filter: CString)
    | Unsubscribe(filter: CString)
    | Publish(message: Message)
    | Inject(message: Message)

  /** The entries other than `x`, in order. */
  function Without(s: seq<CString>, x: CString): (r: seq<CString>)
    ensures x !in r && |r| <= |s|
  {
    if s == [] then []
    else Without(s[..|s| - 1], x) + if s[|s| - 1] == x then [] else [s[|s| - 1]]
  }

  /** How many entries take the topic. */
  function Takers(subscriptions: seq<CString>, topic: CString): (n: nat)
    ensures n <= |subscriptions|
  {
    if subscriptions == [] then 0
    else
      var last := |subscriptions| - 1;
      Takers(subscriptions[..last], topic) + if TopicMatch(subscriptions[last], topic) then 1 else 0
  }

  function Times(m: Message, n: nat): (r: seq<Message>)
    ensures |r| == n
  {
    seq(n, _ => m)
  }

  function Step(s: State, call: Call): State {
    match call
    case Connect => s.(connected := true)
    case Disconnect => s.(connected := false, subscriptions := [])
    case SetCallback(present) => s.(callback := present)
    case Subscribe(f) => if s.connected then s.(subscriptions := s.subscriptions + [f]) else s
    case Unsubscribe(f) => if s.connected then s.(subscriptions := Without(s.subscriptions, f)) else s
    case Publish(m) =>
      if !s.connected then s
      else s.(published := s.published + [m],
              delivered := s.delivered + if s.callback then Times(m, Takers(s.subscriptions, m.topic)) else [])
    case Inject(m) => if s.callback then s.(delivered := s.delivered + [m]) else s
  }

  function Run(calls: seq<Call>): State
    decreases |calls|
  {
    if calls == [] then INITIAL else Step(Run(calls[..|calls| - 1]), calls[|calls| - 1])
  }

  ghost function TakerIndices(subscriptions: seq<CString>, topic: CString): set<nat> {
    set i: nat | i < |subscriptions| && TopicMatch(subscriptions[i], topic)
  }

  /** As many entries take a topic as there are places whose filter matches it. */
  lemma {:induction false} TakersAreCounted(subscriptions: seq<CString>, topic: CString)
    ensures Takers(subscriptions, topic) == |TakerIndices(subscriptions, topic)|
  {
    hide TopicMatch;
    if subscriptions == [] {
      assert TakerIndices(subscriptions, topic) == {};
    } else {
      var last := |subscriptions| - 1;
      TakersAreCounted(subscriptions[..last], topic);
      assert TakerIndices(subscriptions, topic)
          == TakerIndices(subscriptions[..last], topic) + if TopicMatch(subscriptions[last], topic) then {last} else {};
    }
  }

  // ---- The same, read off the history -------------------------------------------------

  /** Before call `n` the last connect has not been followed by a disconnect. */
  ghost predicate ConnectedAt(calls: seq<Call>, n: nat)
    requires n <= |calls|
  {
    exists i :: 0 <= i < n && calls[i] == Connect && forall k :: i < k < n ==> calls[k] != Disconnect
  }

  /** Before call `n` the last callback set was a real one. */
  ghost predicate CallbackAt(calls: seq<Call>, n: nat)
    requires n <= |calls|
  {
    exists i :: 0 <= i < n && calls[i] == SetCallback(true) && forall k :: i < k < n ==> calls[k] != SetCallback(false)
  }

  /** Call `i` subscribed, and until call `n` nothing has ended that. */
  ghost predicate Live(calls: seq<Call>, i: nat, n: nat)
    requires i < n <= |calls|
  {
    && calls[i].Subscribe? && ConnectedAt(calls, i)
    && forall k :: i < k < n ==> calls[k] != Disconnect && calls[k] != Unsubscribe(calls[i].filter)
  }

  /** The live filters among the first `m` calls, seen before call `n`, oldest first. */
  ghost function LiveFilters(calls: seq<Call>, m: nat, n: nat): seq<CString>
    requires m <= n <= |calls|
  {
    if m == 0 then []
    else LiveFilters(calls, m - 1, n) + if Live(calls, m - 1, n) then [calls[m - 1].filter] else []
  }

  /** The publishes made while connected. */
  ghost function Sent(calls: seq<Call>, n: nat): seq<Message>
    requires n <= |calls|
  {
    if n == 0 then []
    else Sent(calls, n - 1) + if calls[n - 1].Publish? && ConnectedAt(calls, n - 1) then [calls[n - 1].message] else []
  }

  /** What the callback saw: each connected publish once per live filter that takes it, and every injection. */
  ghost function Seen(calls: seq<Call>, n: nat): seq<Message>
    requires n <= |calls|
  {
    if n == 0 then []
    else
      var call := calls[n - 1];
      Seen(calls, n - 1)
      + if !CallbackAt(calls, n - 1) then []
        else if call.Publish? && ConnectedAt(calls, n - 1) then
          Times(call.message, Takers(LiveFilters(calls, n - 1, n - 1), call.message.topic))
        else if call.Inject? then [call.message]
        else []
  }

  // ---- History and state agree --------------------------------------------------------

  lemma ConnectedNext(calls: seq<Call>, n: nat)
    requires n < |calls|
    ensures ConnectedAt(calls, n + 1) == (calls[n] == Connect || (calls[n] != Disconnect && ConnectedAt(calls, n)))
  {
    if calls[n] != Disconnect && ConnectedAt(calls, n) {
      var i :| 0 <= i < n && calls[i] == Connect && forall k :: i < k < n ==> calls[k] != Disconnect;
      assert forall k :: i < k < n + 1 ==> calls[k] != Disconnect;
    }
    if ConnectedAt(calls, n + 1) && calls[n] != Connect {
      var i :| 0 <= i < n + 1 && calls[i] == Connect && forall k :: i < k < n + 1 ==> calls[k] != Disconnect;
      assert forall k :: i < k < n ==> calls[k] != Disconnect;
    }
  }

  lemma CallbackNext(calls: seq<Call>, n: nat)
    requires n < |calls|
    ensures CallbackAt(calls, n + 1) ==
            (calls[n] == SetCallback(true) || (calls[n] != SetCallback(false) && CallbackAt(calls, n)))
  {
    if calls[n] != SetCallback(false) && CallbackAt(calls, n) {
      var i :| 0 <= i < n && calls[i] == SetCallback(true) && forall k :: i < k < n ==> calls[k] != SetCallback(false);
      assert forall k :: i < k < n + 1 ==> calls[k] != SetCallback(false);
    }
    if CallbackAt(calls, n + 1) && calls[n] != SetCallback(true) {
      var i :| 0 <= i < n + 1 && calls[i] == SetCallback(true) && forall k :: i < k < n + 1 ==> calls[k] != SetCallback(false);
      assert forall k :: i < k < n ==> calls[k] != SetCallback(false);
    }
  }

  /** One more call changes the older live filters only by a disconnect or by its own unsubscription. */
  lemma {:induction false} LiveNext(calls: seq<Call>, m: nat, n: nat)
    requires m <= n < |calls|
    ensures LiveFilters(calls, m, n + 1) ==
            match calls[n] {
              case Disconnect => []
              case Unsubscribe(f) => Without(LiveFilters(calls, m, n), f)
              case _ => LiveFilters(calls, m, n)
            }
  {
    if m > 0 {
      LiveNext(calls, m - 1, n);
      OneLiveNext(calls, m - 1, n);
      var before := LiveFilters(calls, m - 1, n);
      if Live(calls, m - 1, n) {
        assert LiveFilters(calls, m, n) == before + [calls[m - 1].filter];
        if calls[n].Unsubscribe? { WithoutSnoc(before, calls[m - 1].filter, calls[n].filter); }
      } else {
        assert LiveFilters(calls, m, n) == before;
      }
    }
  }

  lemma OneLiveNext(calls: seq<Call>, i: nat, n: nat)
    requires i < n < |calls|
    ensures Live(calls, i, n + 1)
       <==> Live(calls, i, n) && calls[n] != Disconnect && calls[n] != Unsubscribe(calls[i].filter)
  {
  }

  lemma WithoutSnoc(s: seq<CString>, x: CString, f: CString)
    ensures Without(s + [x], f) == Without(s, f) + if x == f then [] else [x]
  {
    assert (s + [x])[..|s|] == s;
  }

  lemma {:induction false} OfflineHasNone(calls: seq<Call>, m: nat, n: nat)
    requires m <= n <= |calls| && !ConnectedAt(calls, n)
    ensures LiveFilters(calls, m, n) == []
  {
    if m > 0 {
      OfflineHasNone(calls, m - 1, n);
      if Live(calls, m - 1, n) {
        StaysConnected(calls, m - 1, n);
      }
    }
  }

  lemma StaysConnected(calls: seq<Call>, i: nat, n: nat)
    requires i < n <= |calls| && ConnectedAt(calls, i) && calls[i] != Disconnect
    requires forall k :: i < k < n ==> calls[k] != Disconnect
    ensures ConnectedAt(calls, n)
  {
    var j :| 0 <= j < i && calls[j] == Connect && forall k :: j < k < i ==> calls[k] != Disconnect;
    assert forall k :: j < k < n ==> calls[k] != Disconnect;
  }

  /**
   * After any run from a new client: it is connected if the last connect stands; its
   * subscriptions are the live ones, in the order they were made; its log holds exactly the
   * connected publishes; and the callback saw each of them once per filter then live that
   * takes it.
   */
  lemma {:induction false} StateIsHistory(calls: seq<Call>, n: nat)
    requires n <= |calls|
    ensures Run(calls[..n]) ==
            State(ConnectedAt(calls, n), CallbackAt(calls, n), LiveFilters(calls, n, n), Sent(calls, n), Seen(calls, n))
  {
    hide Takers, Without;
    if n == 0 {
      assert calls[..n] == [];
    } else {
      hide ConnectedAt, CallbackAt, LiveFilters, Sent, Seen;
      var p := n - 1;
      StateIsHistory(calls, p);
      assert calls[..n][..p] == calls[..p] && calls[..n][p] == calls[p];
      ConnectedNext(calls, p);
      CallbackNext(calls, p);
      SubscriptionsNext(calls, p);
      LogsNext(calls, p);
    }
  }

  lemma SubscriptionsNext(calls: seq<Call>, p: nat)
    requires p < |calls|
    requires Run(calls[..p]).connected == ConnectedAt(calls, p)
    requires Run(calls[..p]).subscriptions == LiveFilters(calls, p, p)
    ensures Step(Run(calls[..p]), calls[p]).subscriptions == LiveFilters(calls, p + 1, p + 1)
  {
    hide ConnectedAt, Run, LiveFilters;
    var before := LiveFilters(calls, p, p);
    LiveNext(calls, p, p);
    LastLive(calls, p);
    if !ConnectedAt(calls, p) {
      OfflineHasNone(calls, p, p);
      assert forall f :: Without([], f) == [];
    }
  }

  lemma LastLive(calls: seq<Call>, p: nat)
    requires p < |calls|
    ensures LiveFilters(calls, p + 1, p + 1) == LiveFilters(calls, p, p + 1)
            + if calls[p].Subscribe? && ConnectedAt(calls, p) then [calls[p].filter] else []
  {
    hide ConnectedAt;
    assert Live(calls, p, p + 1) <==> calls[p].Subscribe? && ConnectedAt(calls, p);
  }

  lemma LogsNext(calls: seq<Call>, p: nat)
    requires p < |calls|
    requires Run(calls[..p]).connected == ConnectedAt(calls, p)
    requires Run(calls[..p]).callback == CallbackAt(calls, p)
    requires Run(calls[..p]).subscriptions == LiveFilters(calls, p, p)
    requires Run(calls[..p]).published == Sent(calls, p)
    requires Run(calls[..p]).delivered == Seen(calls, p)
    ensures Step(Run(calls[..p]), calls[p]).published == Sent(calls, p + 1)
    ensures Step(Run(calls[..p]), calls[p]).delivered == Seen(calls, p + 1)
  {
    hide ConnectedAt, CallbackAt, LiveFilters, Takers, Run;
  }

  /** A client that is not connected holds no subscriptions, whatever was called. */
  lemma OfflineIsEmpty(calls: seq<Call>)
    ensures !Run(calls).connected ==> Run(calls).subscriptions == []
  {
    assert calls[..|calls|] == calls;
    StateIsHistory(calls, |calls|);
    if !Run(calls).connected { OfflineHasNone(calls, |calls|, |calls|); }
  }
}

/** The client. */
module PubSubClient {
  import opened MachineInts
  import opened TopicFilters
  import opened PubSubModel

  class PubSubClient {
    var connected: bool
    var callback: bool
    var subscriptions: seq<CString>
    var published: seq<Message>
    /** What the callback has been handed. */
    var delivered: seq<Message>

    function Now(): State
      reads this
    {
      State(connected, callback, subscriptions, published, delivered)
    }

    constructor ()
      ensures Now() == Run([])
    {
      connected, callback, subscriptions, published, delivered := false, false, [], [], [];
    }

    method SetCallback(present: bool)
      modifies this
      ensures Now() == Step(old(Now()), Call.SetCallback(present))
    {
      callback := present;
    }

    method Connect() returns (ok: bool)
      modifies this
      ensures ok && Now() == Step(old(Now()), Call.Connect)
    {
      connected := true;
      ok := true;
    }

    method Disconnect()
      modifies this
      ensures Now() == Step(old(Now()), Call.Disconnect)
    {
      connected := false;
      subscriptions := [];
    }

    method Subscribe(filter: CString) returns (ok: bool)
      modifies this
      ensures ok == old(connected) && Now() == Step(old(Now()), Call.Subscribe(filter))
    {
      if !connected { return false; }
      subscriptions := subscriptions + [filter];
      ok := true;
    }

    method Unsubscribe(filter: CString) returns (ok: bool)
      modifies this
      ensures ok == old(connected) && Now() == Step(old(Now()), Call.Unsubscribe(filter))
    {
      if !connected { return false; }
      subscriptions := Without(subscriptions, filter);
      ok := true;
    }

    method Publish(topic: CString, payload: seq<byte>) returns (ok: bool)
      modifies this
      ensures ok == old(connected) && Now() == Step(old(Now()), Call.Publish(Message(topic, payload)))
    {
      if !connected { return false; }
      var m := Message(topic, payload);
      published := published + [m];
      if callback {
        var i := 0;
        while i < |subscriptions|
          invariant 0 <= i <= |subscriptions|
          invariant connected && callback && subscriptions == old(subscriptions)
          invariant published == old(published) + [m]
          invariant delivered == old(delivered) + Times(m, Takers(subscriptions[..i], topic))
        {
          assert subscriptions[..i + 1][..i] == subscriptions[..i];
          if TopicMatch(subscriptions[i], topic) {
            delivered := delivered + [m];
          }
          i := i + 1;
        }
        assert subscriptions[..i] == subscriptions;
      }
      ok := true;
    }

    method InjectMessage(topic: CString, payload: seq<byte>)
      modifies this
      ensures Now() == Step(old(Now()), Call.Inject(Message(topic, payload)))
    {
      if callback {
        delivered := delivered + [Message(topic, payload)];
      }
    }
  }
}
