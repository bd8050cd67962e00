/**
 * The alarm classifier: `get_alarm_list` tries the alarm rules in order on
 * the path of every symbol, and the first rule whose pattern occurs gives
 * the alarm's offset and, through the captured digits, its station. The
 * result maps each station to its alarms in traversal order.
 */
module AlarmsExtractor {
  import opened Wrappers
  import opened Strings
  import opened PathResolver
  import opened AlarmPatterns

  /**
   * One alarm rule: the pattern `Application\.S(\d+)` followed by the
   * literal `suffix`, and the offset added to the member's byte offset.
   */
  datatype AlarmType = AlarmType(suffix: string, offset: int)

  /** The rules in the order they are tried. */
  const AlarmTypes: seq<AlarmType> := [
    AlarmType(".stDefImdt.", 1),
    AlarmType(".stDefFcy.", 1000),
    AlarmType(".stDefAttente.", 2000)
  ]

  /** A symbol with its computed `alarm_offset`. */
  datatype Alarm = Alarm(symbol: Symbol, alarmOffset: int)

  /** Every rule's suffix starts with a dot, so the digit run always ends before it. */
  lemma AlarmTypesStopDigits()
    ensures forall k | 0 <= k < |AlarmTypes| :: SuffixStopsDigits(AlarmTypes[k].suffix)
  {
    assert AlarmTypes[0].suffix[0] == '.';
    assert AlarmTypes[1].suffix[0] == '.';
    assert AlarmTypes[2].suffix[0] == '.';
  }

  /**
   * The first rule whose pattern occurs in `name`, as its index and the
   * station digits it captured; the rules before it all fail.
   */
  function FirstMatch(name: string, rules: seq<AlarmType>): (r: Option<(nat, string)>)
    ensures r.Some? ==> r.value.0 < |rules|
    ensures r.Some? ==> var c := Search(name, rules[r.value.0].suffix); c.Some? && c.value.digits == r.value.1
    ensures r.Some? ==> forall k | 0 <= k < r.value.0 :: Search(name, rules[k].suffix).None?
    ensures r.None? <==> forall k | 0 <= k < |rules| :: Search(name, rules[k].suffix).None?
    decreases |rules|
  {
    if rules == [] then None
    else match Search(name, rules[0].suffix)
      case Some(c) => Some((0, c.digits))
      case None =>
        var rest := FirstMatch(name, rules[1..]);
        if rest.None? then None else Some((rest.value.0 + 1, rest.value.1))
  }

  /** The path matches one of the alarm patterns. */
  predicate IsAlarm(sym: Symbol)
    requires sym.name.Some?
  {
    FirstMatch(sym.name.value, AlarmTypes).Some?
  }

  /**
   * What `get_alarm_list` needs of a symbol: a path to search in and, when
   * the path is an alarm, a byte offset to add the rule's offset to.
   */
  predicate Classifiable(sym: Symbol) {
    sym.name.Some? && (IsAlarm(sym) ==> sym.byteOffset.Some?)
  }

  /** The station and the alarm a symbol becomes, or `None` when no rule matches. */
  function Classify(sym: Symbol): (r: Option<(string, Alarm)>)
    requires Classifiable(sym)
  {
    match FirstMatch(sym.name.value, AlarmTypes)
    case None => None
    case Some(m) => Some((m.1, Alarm(sym, AlarmTypes[m.0].offset + sym.byteOffset.value)))
  }

  predicate AllClassifiable(symbols: seq<Symbol>) {
    forall i | 0 <= i < |symbols| :: Classifiable(symbols[i])
  }

  /** The (station, alarm) pairs of the matched symbols, in traversal order. */
  function ClassifyAll(symbols: seq<Symbol>): seq<(string, Alarm)>
    requires AllClassifiable(symbols)
  {
    if symbols == [] then []
    else
      var init := symbols[..|symbols| - 1];
      assert AllClassifiable(init) by {
        assert forall i | 0 <= i < |init| :: init[i] == symbols[i];
      }
      var c := Classify(symbols[|symbols| - 1]);
      ClassifyAll(init) + (if c.None? then [] else [c.value])
  }

  /** The station lists of the pairs `cs`: each alarm appended to the list of its station. */
  function GroupsOf(cs: seq<(string, Alarm)>): map<string, seq<Alarm>> {
    if cs == [] then map[]
    else
      var groups := GroupsOf(cs[..|cs| - 1]);
      var (station, alarm) := cs[|cs| - 1];
      if station in groups then groups[station := groups[station] + [alarm]]
      else groups[station := [alarm]]
  }

  /** The stations of `cs` in the order their lists were created (the dictionary's key order). */
  function StationOrder(cs: seq<(string, Alarm)>): seq<string> {
    if cs == [] then []
    else
      var order := StationOrder(cs[..|cs| - 1]);
      var station := cs[|cs| - 1].0;
      if station in order then order else order + [station]
  }

  /** Reference definition of a station list: the alarms of that station, in order. */
  function Select(cs: seq<(string, Alarm)>, station: string): seq<Alarm> {
    if cs == [] then []
    else
      var last := cs[|cs| - 1];
      Select(cs[..|cs| - 1], station) + (if last.0 == station then [last.1] else [])
  }

  /**
   * The inner loop of `get_alarm_list`: the rules are tried in order on
   * `name`, a rule whose pattern does not occur is skipped, and the first
   * one that occurs ends the loop with its index and captured digits.
   */
  method MatchRule(name: string) returns (r: Option<(nat, string)>)
    ensures r == FirstMatch(name, AlarmTypes)
  {
    var j := 0;
    while j < |AlarmTypes|
      invariant 0 <= j <= |AlarmTypes|
      invariant forall k | 0 <= k < j :: Search(name, AlarmTypes[k].suffix).None?
    {
      var res := Search(name, AlarmTypes[j].suffix);
      if res.None? {
        j := j + 1;
        continue;
      }
      r := Some((j, res.value.digits));
      return;
    }
    r := None;
  }

  /**
   * `get_alarm_list`: the station lists of the symbols, and the order in
   * which the stations first appeared.
   */
  method GetAlarmList(symbols: seq<Symbol>) returns (stations: seq<string>, alarmList: map<string, seq<Alarm>>)
    requires AllClassifiable(symbols)
    ensures alarmList == GroupsOf(ClassifyAll(symbols))
    ensures stations == StationOrder(ClassifyAll(symbols))
  {
    alarmList := map[];
    stations := [];
    var i := 0;
    while i < |symbols|
      invariant 0 <= i <= |symbols|
      invariant AllClassifiable(symbols[..i])
      invariant alarmList == GroupsOf(ClassifyAll(symbols[..i]))
      invariant stations == StationOrder(ClassifyAll(symbols[..i]))
    {
      ClassifyPrefix(symbols, i);
      stations, alarmList := AddSymbol(stations, alarmList, ClassifyAll(symbols[..i]), symbols[i]);
      i := i + 1;
    }
    assert symbols[..i] == symbols;
  }

  /**
   * One pass of the outer loop of `get_alarm_list`: the rules are tried on
   * the symbol's path and, when one matches, the alarm is added to the list
   * of the captured station; otherwise nothing changes.
   */
  method AddSymbol(stations: seq<string>, alarmList: map<string, seq<Alarm>>, ghost cs: seq<(string, Alarm)>, symbol: Symbol)
    returns (stations': seq<string>, alarmList': map<string, seq<Alarm>>)
    requires Classifiable(symbol)
    requires alarmList == GroupsOf(cs) && stations == StationOrder(cs)
    ensures var c := Classify(symbol);
      var cs' := cs + (if c.None? then [] else [c.value]);
      alarmList' == GroupsOf(cs') && stations' == StationOrder(cs')
  {
    var m := MatchRule(symbol.name.value);
    if m.None? {
      assert cs + [] == cs;
      return stations, alarmList;
    }
    var alarm := Alarm(symbol, AlarmTypes[m.value.0].offset + symbol.byteOffset.value);
    stations', alarmList' := AddToStation(stations, alarmList, cs, m.value.1, alarm);
  }

  /**
   * The dictionary update of `get_alarm_list`: the alarm is appended to the
   * list of its station, which is created, its key coming last, on first use.
   */
  method AddToStation(stations: seq<string>, alarmList: map<string, seq<Alarm>>, ghost cs: seq<(string, Alarm)>,
                      station: string, alarm: Alarm)
    returns (stations': seq<string>, alarmList': map<string, seq<Alarm>>)
    requires alarmList == GroupsOf(cs) && stations == StationOrder(cs)
    ensures alarmList' == GroupsOf(cs + [(station, alarm)])
    ensures stations' == StationOrder(cs + [(station, alarm)])
  {
    AddAlarm(cs, station, alarm);
    if station in alarmList {
      alarmList' := alarmList[station := alarmList[station] + [alarm]];
      stations' := stations;
    } else {
      alarmList' := alarmList[station := [alarm]];
      stations' := stations + [station];
    }
  }

  lemma ClassifyPrefix(symbols: seq<Symbol>, i: nat)
    requires AllClassifiable(symbols) && i < |symbols|
    ensures AllClassifiable(symbols[..i]) && AllClassifiable(symbols[..i + 1])
    ensures var c := Classify(symbols[i]);
      ClassifyAll(symbols[..i + 1]) == ClassifyAll(symbols[..i]) + (if c.None? then [] else [c.value])
  {
    assert symbols[..i + 1] == symbols[..i] + [symbols[i]];
    ClassifyAllSnoc(symbols[..i], symbols[i]);
  }

  /** One alarm more: appended to the list of its station, which is created, and its key added, on first use. */
  lemma AddAlarm(cs: seq<(string, Alarm)>, station: string, alarm: Alarm)
    ensures var groups, order := GroupsOf(cs), StationOrder(cs);
      && GroupsOf(cs + [(station, alarm)]) ==
           (if station in groups then groups[station := groups[station] + [alarm]] else groups[station := [alarm]])
      && StationOrder(cs + [(station, alarm)]) == (if station in groups then order else order + [station])
  {
    StationsAreKeys(cs);
    assert (cs + [(station, alarm)])[..|cs|] == cs;
  }

  // ---------------------------------------------------------------------
  // The station lists.

  /** A station has a list exactly when some pair names it, and its key order lists each such station once. */
  lemma {:induction false} StationsAreKeys(cs: seq<(string, Alarm)>)
    ensures forall st :: st in StationOrder(cs) <==> st in GroupsOf(cs)
    ensures forall st :: st in GroupsOf(cs) <==> exists k | 0 <= k < |cs| :: cs[k].0 == st
    ensures forall i, j | 0 <= i < j < |StationOrder(cs)| :: StationOrder(cs)[i] != StationOrder(cs)[j]
    decreases |cs|
  {
    if cs != [] {
      var init := cs[..|cs| - 1];
      StationsAreKeys(init);
      forall st | st in GroupsOf(cs)
        ensures exists k | 0 <= k < |cs| :: cs[k].0 == st
      {
        if st in GroupsOf(init) {
          var k :| 0 <= k < |init| && init[k].0 == st;
          assert cs[k] == init[k];
        } else {
          assert cs[|cs| - 1].0 == st;
        }
      }
      forall st | exists k | 0 <= k < |cs| :: cs[k].0 == st
        ensures st in GroupsOf(cs)
      {
        var k :| 0 <= k < |cs| && cs[k].0 == st;
        if k < |init| {
          assert init[k] == cs[k];
        }
      }
    }
  }

  /** Each station list holds the alarms of that station, in the order of `cs`. */
  lemma {:induction false} GroupsAreSelections(cs: seq<(string, Alarm)>, station: string)
    ensures station in GroupsOf(cs) ==> GroupsOf(cs)[station] == Select(cs, station)
    ensures station !in GroupsOf(cs) <==> Select(cs, station) == []
    decreases |cs|
  {
    if cs != [] {
      GroupsAreSelections(cs[..|cs| - 1], station);
    }
  }

  /** Classification keeps traversal order: the pairs of `a + b` are those of `a`, then those of `b`. */
  lemma {:induction false} ClassifyAllAppend(a: seq<Symbol>, b: seq<Symbol>)
    requires AllClassifiable(a) && AllClassifiable(b)
    ensures AllClassifiable(a + b)
    ensures ClassifyAll(a + b) == ClassifyAll(a) + ClassifyAll(b)
    decreases |b|
  {
    AllClassifiableAppend(a, b);
    if b == [] {
      assert a + b == a;
    } else {
      var b0, last := b[..|b| - 1], b[|b| - 1];
      assert b == b0 + [last];
      assert a + b == (a + b0) + [last];
      AllClassifiableAppend(b0, [last]);
      ClassifyAllAppend(a, b0);
      var c := Classify(last);
      var tail := if c.None? then [] else [c.value];
      assert ClassifyAll(a + b) == ClassifyAll(a + b0) + tail by {
        ClassifyAllSnoc(a + b0, last);
      }
      assert ClassifyAll(b) == ClassifyAll(b0) + tail by {
        ClassifyAllSnoc(b0, last);
      }
      assert ClassifyAll(a + b0) + tail == ClassifyAll(a) + (ClassifyAll(b0) + tail);
    }
  }

  lemma AllClassifiableAppend(a: seq<Symbol>, b: seq<Symbol>)
    ensures AllClassifiable(a + b) <==> AllClassifiable(a) && AllClassifiable(b)
  {
    forall i | 0 <= i < |a + b|
      ensures (a + b)[i] == if i < |a| then a[i] else b[i - |a|]
    {
    }
    if AllClassifiable(a + b) {
      forall i | 0 <= i < |b|
        ensures Classifiable(b[i])
      {
        assert b[i] == (a + b)[|a| + i];
      }
    }
  }

  lemma ClassifyAllSnoc(s: seq<Symbol>, x: Symbol)
    requires AllClassifiable(s + [x])
    ensures AllClassifiable(s) && Classifiable(x)
    ensures var c := Classify(x); ClassifyAll(s + [x]) == ClassifyAll(s) + (if c.None? then [] else [c.value])
  {
    AllClassifiableAppend(s, [x]);
    assert (s + [x])[..|s|] == s;
    assert (s + [x])[|s|] == x;
  }

  lemma {:induction false} SelectAppend(a: seq<(string, Alarm)>, b: seq<(string, Alarm)>, station: string)
    ensures Select(a + b, station) == Select(a, station) + Select(b, station)
    decreases |b|
  {
    if b == [] {
      assert a + b == a;
    } else {
      SelectAppend(a, b[..|b| - 1], station);
      assert (a + b)[..|a + b| - 1] == a + b[..|b| - 1];
    }
  }

  /**
   * Station lists keep traversal order: the list of a station over a split
   * traversal is its list over the first part followed by its list over the
   * second.
   */
  lemma {:induction false} TraversalOrder(a: seq<Symbol>, b: seq<Symbol>, station: string)
    requires AllClassifiable(a) && AllClassifiable(b)
    ensures AllClassifiable(a + b)
    ensures Select(ClassifyAll(a + b), station) == Select(ClassifyAll(a), station) + Select(ClassifyAll(b), station)
  {
    ClassifyAllAppend(a, b);
    SelectAppend(ClassifyAll(a), ClassifyAll(b), station);
  }

  /**
   * The pairs come exactly from the matched symbols: each is its symbol's
   * classification, and every matched symbol gives one.
   */
  lemma {:induction false} ClassifyAllSound(symbols: seq<Symbol>, c: (string, Alarm))
    requires AllClassifiable(symbols) && c in ClassifyAll(symbols)
    ensures exists i | 0 <= i < |symbols| :: Classify(symbols[i]) == Some(c)
    decreases |symbols|
  {
    var init, last := symbols[..|symbols| - 1], symbols[|symbols| - 1];
    assert symbols == init + [last];
    ClassifyAllSnoc(init, last);
    if c in ClassifyAll(init) {
      ClassifyAllSound(init, c);
      var i :| 0 <= i < |init| && Classify(init[i]) == Some(c);
      assert symbols[i] == init[i];
    } else {
      assert Classify(symbols[|symbols| - 1]) == Some(c);
    }
  }

  lemma {:induction false} ClassifyAllComplete(symbols: seq<Symbol>, i: nat)
    requires AllClassifiable(symbols) && i < |symbols| && Classify(symbols[i]).Some?
    ensures Classify(symbols[i]).value in ClassifyAll(symbols)
    decreases |symbols|
  {
    var init, last := symbols[..|symbols| - 1], symbols[|symbols| - 1];
    assert symbols == init + [last];
    ClassifyAllSnoc(init, last);
    if i < |init| {
      assert symbols[i] == init[i];
      ClassifyAllComplete(init, i);
    }
  }

  /**
   * Every alarm in a station list is a symbol of the input whose first
   * matching rule captured that station, with that rule's offset added to the
   * symbol's byte offset; a symbol that matches no rule is in no list.
   */
  lemma {:induction false} AlarmsComeFromMatches(symbols: seq<Symbol>, station: string, alarm: Alarm)
    requires AllClassifiable(symbols)
    requires station in GroupsOf(ClassifyAll(symbols)) && alarm in GroupsOf(ClassifyAll(symbols))[station]
    ensures alarm.symbol in symbols && IsAlarm(alarm.symbol)
    ensures var m := FirstMatch(alarm.symbol.name.value, AlarmTypes).value;
      m.1 == station && alarm.alarmOffset == AlarmTypes[m.0].offset + alarm.symbol.byteOffset.value
  {
    var cs := ClassifyAll(symbols);
    assert (station, alarm) in cs by {
      GroupsAreSelections(cs, station);
      SelectMembers(cs, station, alarm);
    }
    ClassifyAllSound(symbols, (station, alarm));
    var i :| 0 <= i < |symbols| && Classify(symbols[i]) == Some((station, alarm));
    assert alarm.symbol == symbols[i];
  }

  lemma {:induction false} SelectMembers(cs: seq<(string, Alarm)>, station: string, alarm: Alarm)
    ensures alarm in Select(cs, station) <==> (station, alarm) in cs
    decreases |cs|
  {
    if cs != [] {
      var init := cs[..|cs| - 1];
      SelectMembers(init, station, alarm);
      assert cs == init + [cs[|cs| - 1]];
    }
  }

  /** Every matched symbol is in the list of the station its first matching rule captured. */
  lemma {:induction false} MatchesAreListed(symbols: seq<Symbol>, i: nat)
    requires AllClassifiable(symbols) && i < |symbols| && IsAlarm(symbols[i])
    ensures var sym := symbols[i];
      var m := FirstMatch(sym.name.value, AlarmTypes).value;
      var groups := GroupsOf(ClassifyAll(symbols));
      && m.1 in groups
      && Alarm(sym, AlarmTypes[m.0].offset + sym.byteOffset.value) in groups[m.1]
  {
    var cs := ClassifyAll(symbols);
    var c := Classify(symbols[i]).value;
    ClassifyAllComplete(symbols, i);
    assert c.1 in Select(cs, c.0) by {
      SelectMembers(cs, c.0, c.1);
    }
    GroupsAreSelections(cs, c.0);
  }

  /** The number of alarms over the station lists, in key order. */
  function TotalAlarms(groups: map<string, seq<Alarm>>, order: seq<string>): nat
    requires forall k | 0 <= k < |order| :: order[k] in groups
  {
    if order == [] then 0 else |groups[order[0]]| + TotalAlarms(groups, order[1..])
  }

  /** The number of symbols with a matching rule. */
  function CountAlarms(symbols: seq<Symbol>): nat
    requires forall i | 0 <= i < |symbols| :: symbols[i].name.Some?
  {
    if symbols == [] then 0
    else
      var last := symbols[|symbols| - 1];
      CountAlarms(symbols[..|symbols| - 1]) + (if IsAlarm(last) then 1 else 0)
  }

  /**
   * Nothing is lost or duplicated: the station lists hold, all together, one
   * alarm per matched symbol.
   */
  lemma {:induction false} AlarmCount(symbols: seq<Symbol>)
    requires AllClassifiable(symbols)
    ensures var cs := ClassifyAll(symbols);
      && (forall k | 0 <= k < |StationOrder(cs)| :: StationOrder(cs)[k] in GroupsOf(cs))
      && TotalAlarms(GroupsOf(cs), StationOrder(cs)) == CountAlarms(symbols)
  {
    var cs := ClassifyAll(symbols);
    StationsAreKeys(cs);
    GroupsTotal(cs);
    ClassifyAllCount(symbols);
  }

  lemma {:induction false} ClassifyAllCount(symbols: seq<Symbol>)
    requires AllClassifiable(symbols)
    ensures |ClassifyAll(symbols)| == CountAlarms(symbols)
    decreases |symbols|
  {
    if symbols != [] {
      var init := symbols[..|symbols| - 1];
      assert forall i | 0 <= i < |init| :: init[i] == symbols[i];
      ClassifyAllCount(init);
    }
  }

  lemma {:induction false} GroupsTotal(cs: seq<(string, Alarm)>)
    ensures forall k | 0 <= k < |StationOrder(cs)| :: StationOrder(cs)[k] in GroupsOf(cs)
    ensures TotalAlarms(GroupsOf(cs), StationOrder(cs)) == |cs|
    decreases |cs|
  {
    StationsAreKeys(cs);
    if cs != [] {
      var init := cs[..|cs| - 1];
      var (station, alarm) := cs[|cs| - 1];
      var groups := GroupsOf(init);
      var order := StationOrder(init);
      GroupsTotal(init);
      StationsAreKeys(init);
      if station in order {
        TotalAlarmsUpdate(groups, order, station, groups[station] + [alarm]);
      } else {
        var updated := groups[station := [alarm]];
        TotalAlarmsFrame(groups, updated, order);
        TotalAlarmsAppend(updated, order, station);
      }
    }
  }

  lemma {:induction false} TotalAlarmsAppend(groups: map<string, seq<Alarm>>, order: seq<string>, station: string)
    requires forall k | 0 <= k < |order| :: order[k] in groups
    requires station in groups
    ensures forall k | 0 <= k < |order + [station]| :: (order + [station])[k] in groups
    ensures TotalAlarms(groups, order + [station]) == TotalAlarms(groups, order) + |groups[station]|
    decreases |order|
  {
    var o := order + [station];
    assert forall k | 0 <= k < |o| :: o[k] == if k < |order| then order[k] else station;
    if order != [] {
      assert o[1..] == order[1..] + [station];
      TotalAlarmsAppend(groups, order[1..], station);
    }
  }

  lemma {:induction false} TotalAlarmsFrame(groups: map<string, seq<Alarm>>, other: map<string, seq<Alarm>>, order: seq<string>)
    requires forall k | 0 <= k < |order| :: order[k] in groups && order[k] in other && groups[order[k]] == other[order[k]]
    ensures TotalAlarms(groups, order) == TotalAlarms(other, order)
    decreases |order|
  {
    if order != [] {
      TotalAlarmsFrame(groups, other, order[1..]);
    }
  }

  lemma {:induction false} TotalAlarmsUpdate(groups: map<string, seq<Alarm>>, order: seq<string>, station: string, v: seq<Alarm>)
    requires forall k | 0 <= k < |order| :: order[k] in groups
    requires forall i, j | 0 <= i < j < |order| :: order[i] != order[j]
    requires station in order
    ensures TotalAlarms(groups[station := v], order) + |groups[station]| == TotalAlarms(groups, order) + |v|
    decreases |order|
  {
    var updated := groups[station := v];
    if order[0] == station {
      forall k | 0 <= k < |order[1..]|
        ensures order[1..][k] != station
      {
        assert order[1..][k] == order[k + 1];
      }
      TotalAlarmsFrame(groups, updated, order[1..]);
    } else {
      TotalAlarmsUpdate(groups, order[1..], station, v);
    }
  }

  /** A path of the first rule's form gets offset 1 on top of its byte offset, and its digits as station. */
  lemma FirstRuleExample()
    ensures var sym := Symbol(Some("Application.S3.stDefImdt.bFault"), "", Some(8));
      Classifiable(sym) && Classify(sym) == Some(("3", Alarm(sym, 9)))
  {
    var s := "Application.S3.stDefImdt.bFault";
    assert s[..|ApplicationPrefix|] == ApplicationPrefix;
    assert s[14] == '.';
    assert DigitRun(s, 14) == 0;
    assert DigitRun(s, 13) == 1;
    assert s[14..][..11] == ".stDefImdt.";
    assert s[13..14] == "3";
    assert MatchAt(s, 0, ".stDefImdt.") == Some("3");
    assert Search(s, AlarmTypes[0].suffix) == Some(Capture(0, "3"));
  }
}
