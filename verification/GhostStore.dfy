/** The text form of the ghost engine's snapshot: src/ghost_store.rs.  Reading and writing
    the file itself is left to the caller. */
module GhostStore {
  import opened Basics
  import opened LineText
  import Decimal

  type u64 = n: nat | n < 0x1_0000_0000_0000_0000

  datatype Snapshot = Snapshot(
    nodeId: string, role: string,
    policyVersion: u64, connectedPeers: u64, knownPeers: u64, routePeers: u64, trustedPeers: u64,
    lastBeacon: Option<u64>, lastSync: Option<u64>, lastFailure: Option<string>,
    health: seq<string>, decisions: seq<string>, anomalies: seq<string>)

  const DEFAULT := Snapshot("", "", 0, 0, 0, 0, 0, None, None, None, [], [], [])

  // ---------- numbers ----------

  predicate AllDigits(s: string) { forall i :: 0 <= i < |s| ==> Decimal.IsDigit(s[i]) }

  /** `str::parse::<u64>`: an optional plus sign, at least one digit, no overflow. */
  function ParseU64(s: string): Option<u64> {
    var d := if s != [] && s[0] == '+' then s[1..] else s;
    if d == [] || !AllDigits(d) || Decimal.Value(d) >= 0x1_0000_0000_0000_0000 then None
    else Some(Decimal.Value(d))
  }

  function OrZero(n: Option<u64>): u64 { if n.Some? then n.value else 0 }

  lemma NumberReadBack(n: u64)
    ensures Decimal.Show(n) != [] && '\n' !in Decimal.Show(n)
    ensures Trim(Decimal.Show(n), true) == Decimal.Show(n) && ParseU64(Decimal.Show(n)) == Some(n)
  {
    var s := Decimal.Show(n);
    assert forall i :: 0 <= i < |s| ==> Decimal.IsDigit(s[i]);
    assert Decimal.IsDigit(s[0]) && Decimal.IsDigit(s[|s| - 1]);
    Decimal.ValueOfShow(n);
    TrimFacts(s, true);
  }

  // ---------- lines ----------

  datatype Field = NodeId | Role | PolicyVersion | ConnectedPeers | KnownPeers | RoutePeers | TrustedPeers
                 | LastBeacon | LastSync | LastFailure | Health | DecisionItem | Anomaly

  function Name(f: Field): string {
    match f
    case NodeId => "node_id"
    case Role => "role"
    case PolicyVersion => "policy_version"
    case ConnectedPeers => "connected_peers"
    case KnownPeers => "known_peers"
    case RoutePeers => "route_peers"
    case TrustedPeers => "trusted_peers"
    case LastBeacon => "last_beacon_ts"
    case LastSync => "last_sync_ts"
    case LastFailure => "last_failure_reason"
    case Health => "health_history"
    case DecisionItem => "decision_history"
    case Anomaly => "anomaly"
  }

  function FieldOf(key: string): Option<Field> {
    if key == "node_id" then Some(NodeId)
    else if key == "role" then Some(Role)
    else if key == "policy_version" then Some(PolicyVersion)
    else if key == "connected_peers" then Some(ConnectedPeers)
    else if key == "known_peers" then Some(KnownPeers)
    else if key == "route_peers" then Some(RoutePeers)
    else if key == "trusted_peers" then Some(TrustedPeers)
    else if key == "last_beacon_ts" then Some(LastBeacon)
    else if key == "last_sync_ts" then Some(LastSync)
    else if key == "last_failure_reason" then Some(LastFailure)
    else if key == "health_history" then Some(Health)
    else if key == "decision_history" then Some(DecisionItem)
    else if key == "anomaly" then Some(Anomaly)
    else None
  }

  /** The pieces before and after the first '='. */
  function Key(line: string): string {
    if line == [] || line[0] == '=' then [] else [line[0]] + Key(line[1..])
  }

  function Value(line: string): string {
    if line == [] then [] else if line[0] == '=' then line[1..] else Value(line[1..])
  }

  function Set(s: Snapshot, f: Field, value: string): Snapshot {
    match f
    case NodeId => s.(nodeId := value)
    case Role => s.(role := value)
    case PolicyVersion => s.(policyVersion := OrZero(ParseU64(value)))
    case ConnectedPeers => s.(connectedPeers := OrZero(ParseU64(value)))
    case KnownPeers => s.(knownPeers := OrZero(ParseU64(value)))
    case RoutePeers => s.(routePeers := OrZero(ParseU64(value)))
    case TrustedPeers => s.(trustedPeers := OrZero(ParseU64(value)))
    case LastBeacon => s.(lastBeacon := if value == [] then None else ParseU64(value))
    case LastSync => s.(lastSync := if value == [] then None else ParseU64(value))
    case LastFailure => s.(lastFailure := if value == [] then None else Some(Unescape(value)))
    case Health => s.(health := s.health + [Unescape(value)])
    case DecisionItem => s.(decisions := s.decisions + [Unescape(value)])
    case Anomaly => s.(anomalies := s.anomalies + [Unescape(value)])
  }

  function Put(s: Snapshot, e: Entry): Snapshot { Set(s, e.field, Trim(e.value, true)) }

  function LoadLine(s: Snapshot, line: string): Snapshot {
    var f := FieldOf(Trim(Key(line), true));
    if f.None? then s else Put(s, Entry(f.value, Value(line)))
  }

  function LoadLines(s: Snapshot, lines: seq<string>): Snapshot
    decreases |lines|
  {
    if lines == [] then s else LoadLines(LoadLine(s, lines[0]), lines[1..])
  }

  /** `str::lines`: the current line so far, then the rest of the text. */
  function SplitFrom(line: string, text: string): seq<string>
    decreases |text|
  {
    if text == [] then if line == [] then [] else [line]
    else if text[0] == '\n' then [StripCr(line)] + SplitFrom([], text[1..])
    else SplitFrom(line + [text[0]], text[1..])
  }

  function SplitLines(text: string): seq<string> { SplitFrom([], text) }

  datatype Entry = Entry(field: Field, value: string)

  function Line(e: Entry): string { Name(e.field) + "=" + e.value }

  function Text(entries: seq<Entry>): string
    decreases |entries|
  {
    if entries == [] then [] else Line(entries[0]) + "\n" + Text(entries[1..])
  }

  function Items(f: Field, items: seq<string>): (es: seq<Entry>)
    ensures |es| == |items|
  {
    seq(|items|, i requires 0 <= i < |items| => Entry(f, Escape(items[i])))
  }

  function ShowOption(n: Option<u64>): string { if n.Some? then Decimal.Show(n.value) else "" }

  function Names(s: Snapshot): seq<Entry> {
    [Entry(NodeId, s.nodeId), Entry(Role, s.role), Entry(PolicyVersion, Decimal.Show(s.policyVersion))]
  }

  function Counts(s: Snapshot): seq<Entry> {
    [Entry(ConnectedPeers, Decimal.Show(s.connectedPeers)), Entry(KnownPeers, Decimal.Show(s.knownPeers)),
     Entry(RoutePeers, Decimal.Show(s.routePeers))]
  }

  function Stamps(s: Snapshot): seq<Entry> {
    [Entry(TrustedPeers, Decimal.Show(s.trustedPeers)), Entry(LastBeacon, ShowOption(s.lastBeacon)),
     Entry(LastSync, ShowOption(s.lastSync))]
  }

  function Header(s: Snapshot): seq<Entry> { Names(s) + Counts(s) + Stamps(s) }

  function FailureText(s: Snapshot): string { if s.lastFailure.Some? then s.lastFailure.value else "" }

  function History(s: Snapshot): seq<Entry> {
    Items(Health, s.health) + Items(DecisionItem, s.decisions) + Items(Anomaly, s.anomalies)
  }

  function Entries(s: Snapshot): seq<Entry> { Header(s) + [Entry(LastFailure, FailureText(s))] + History(s) }

  // ---------- saving and loading ----------

  method WriteLine(text: string, ghost es: seq<Entry>, e: Entry) returns (r: string, ghost es': seq<Entry>)
    requires text == Text(es)
    ensures es' == es + [e]
    ensures r == Text(es + [e])
  {
    r, es' := text + Line(e) + "\n", es + [e];
    TextSnoc(es, e);
  }

  method WriteItems(text: string, ghost es: seq<Entry>, f: Field, items: seq<string>) returns (r: string)
    requires text == Text(es)
    ensures r == Text(es + Items(f, items))
  {
    r := text;
    assert es + Items(f, items[..0]) == es;
    for i := 0 to |items|
      invariant r == Text(es + Items(f, items[..i]))
    {
      ghost var es';
      r, es' := WriteLine(r, es + Items(f, items[..i]), Entry(f, Escape(items[i])));
      OneMoreItem(es, f, items, i);
    }
    assert items[..|items|] == items;
  }

  lemma OneMoreItem(es: seq<Entry>, f: Field, items: seq<string>, i: nat)
    requires i < |items|
    ensures es + Items(f, items[..i]) + [Entry(f, Escape(items[i]))] == es + Items(f, items[..i + 1])
  {
  }

  method WriteThree(text: string, ghost es: seq<Entry>, a: Entry, b: Entry, c: Entry) returns (r: string)
    requires text == Text(es)
    ensures r == Text(es + [a, b, c])
  {
    ghost var es';
    r, es' := WriteLine(text, es, a);
    r, es' := WriteLine(r, es', b);
    r, es' := WriteLine(r, es', c);
    assert es' == es + [a, b, c];
  }

  method WriteHeader(s: Snapshot) returns (text: string)
    ensures text == Text(Header(s))
  {
    text := WriteThree("", [], Entry(NodeId, s.nodeId), Entry(Role, s.role),
                       Entry(PolicyVersion, Decimal.Show(s.policyVersion)));
    assert [] + Names(s) == Names(s);
    text := WriteThree(text, Names(s), Entry(ConnectedPeers, Decimal.Show(s.connectedPeers)),
                       Entry(KnownPeers, Decimal.Show(s.knownPeers)), Entry(RoutePeers, Decimal.Show(s.routePeers)));
    text := WriteThree(text, Names(s) + Counts(s), Entry(TrustedPeers, Decimal.Show(s.trustedPeers)),
                       Entry(LastBeacon, ShowOption(s.lastBeacon)), Entry(LastSync, ShowOption(s.lastSync)));
  }

  method Save(s: Snapshot) returns (text: string)
    ensures text == Text(Entries(s))
  {
    text := WriteHeader(s);
    ghost var es;
    text, es := WriteLine(text, Header(s), Entry(LastFailure, FailureText(s)));
    ghost var h, d, a := Items(Health, s.health), Items(DecisionItem, s.decisions), Items(Anomaly, s.anomalies);
    text := WriteItems(text, es, Health, s.health);
    text := WriteItems(text, es + h, DecisionItem, s.decisions);
    text := WriteItems(text, es + h + d, Anomaly, s.anomalies);
    Regroup(es, h, d, a);
  }

  lemma Regroup<T>(s: seq<T>, a: seq<T>, b: seq<T>, c: seq<T>)
    ensures s + a + b + c == s + (a + b + c)
  {
  }

  /** A missing file loads as no snapshot. */
  method Load(file: Option<string>) returns (r: Option<Snapshot>)
    ensures r == if file.None? then None else Some(LoadLines(DEFAULT, SplitLines(file.value)))
  {
    if file.None? {
      return None;
    }
    var lines := SplitLines(file.value);
    var s := DEFAULT;
    for i := 0 to |lines|
      invariant LoadLines(s, lines[i..]) == LoadLines(DEFAULT, lines)
    {
      var f := FieldOf(Trim(Key(lines[i]), true));
      var value := Trim(Value(lines[i]), true);
      assert lines[i..][1..] == lines[i + 1..];
      if f.Some? {
        s := Set(s, f.value, value);
      }
    }
    r := Some(s);
  }

  lemma {:induction false} TextConcat(es: seq<Entry>, fs: seq<Entry>)
    ensures Text(es + fs) == Text(es) + Text(fs)
    decreases |es|
  {
    if es == [] {
      assert es + fs == fs;
    } else {
      assert (es + fs)[1..] == es[1..] + fs;
      TextConcat(es[1..], fs);
      assert Line(es[0]) + "\n" + (Text(es[1..]) + Text(fs)) == (Line(es[0]) + "\n" + Text(es[1..])) + Text(fs);
    }
  }

  lemma TextSnoc(es: seq<Entry>, e: Entry)
    ensures Text(es + [e]) == Text(es) + Line(e) + "\n"
  {
    TextConcat(es, [e]);
    assert [e][1..] == [];
    assert Text([e]) == Line(e) + "\n";
    assert Text(es) + (Line(e) + "\n") == Text(es) + Line(e) + "\n";
  }

  // ---------- one line read back ----------

  lemma NameHasNoEquals(f: Field)
    ensures '=' !in Name(f)
  {
  }

  lemma NameHasNoNewline(f: Field)
    ensures '\n' !in Name(f)
  {
  }

  lemma NameIsTight(f: Field)
    ensures Tight(Name(f), true)
  {
  }

  lemma NameFindsField(f: Field)
    ensures FieldOf(Name(f)) == Some(f)
  {
  }

  lemma {:induction false} KeyAndValue(key: string, value: string)
    requires '=' !in key
    ensures Key(key + "=" + value) == key && Value(key + "=" + value) == value
  {
    var line := key + "=" + value;
    if key == [] {
      assert line[1..] == value;
    } else {
      assert line[1..] == key[1..] + "=" + value;
      KeyAndValue(key[1..], value);
    }
  }

  lemma LoadEntry(s: Snapshot, e: Entry)
    ensures LoadLine(s, StripCr(Line(e))) == Put(s, e)
  {
    var name := Name(e.field);
    NameHasNoEquals(e.field);
    NameIsTight(e.field);
    NameFindsField(e.field);
    assert StripCr(Line(e)) == name + "=" + StripCr(e.value);
    KeyAndValue(name, StripCr(e.value));
    TrimFacts(name, true);
    TrimStripCr(e.value);
  }

  // ---------- whole texts ----------

  lemma {:induction false} SplitConcat(line: string, a: string, b: string)
    ensures SplitFrom(line, a + "\n" + b) == SplitFrom(line, a + "\n") + SplitFrom([], b)
    decreases |a|
  {
    var t, u := a + "\n" + b, a + "\n";
    if a == [] {
      assert t[1..] == b && u[1..] == [];
    } else {
      assert t[1..] == a[1..] + "\n" + b && u[1..] == a[1..] + "\n";
      if a[0] == '\n' {
        SplitConcat([], a[1..], b);
      } else {
        SplitConcat(line + [a[0]], a[1..], b);
      }
    }
  }

  lemma {:induction false} SplitOne(line: string, a: string)
    requires '\n' !in a
    ensures SplitFrom(line, a + "\n") == [StripCr(line + a)]
    decreases |a|
  {
    var t := a + "\n";
    if a == [] {
      assert t[1..] == [] && line + a == line;
    } else {
      assert t[1..] == a[1..] + "\n" && line + a == line + [a[0]] + a[1..];
      SplitOne(line + [a[0]], a[1..]);
    }
  }

  lemma {:induction false} LoadConcat(s: Snapshot, xs: seq<string>, ys: seq<string>)
    ensures LoadLines(s, xs + ys) == LoadLines(LoadLines(s, xs), ys)
    decreases |xs|
  {
    if xs == [] {
      assert xs + ys == ys;
    } else {
      assert (xs + ys)[1..] == xs[1..] + ys;
      LoadConcat(LoadLine(s, xs[0]), xs[1..], ys);
    }
  }

  ghost predicate SingleLine(es: seq<Entry>) {
    forall i :: 0 <= i < |es| ==> '\n' !in es[i].value
  }

  function SetAll(s: Snapshot, es: seq<Entry>): Snapshot
    decreases |es|
  {
    if es == [] then s
    else Put(SetAll(s, es[..|es| - 1]), es[|es| - 1])
  }

  lemma SetSnoc(s: Snapshot, es: seq<Entry>, e: Entry)
    ensures SetAll(s, es + [e]) == Put(SetAll(s, es), e)
  {
  }

  lemma {:induction false} SetConcat(s: Snapshot, es: seq<Entry>, fs: seq<Entry>)
    ensures SetAll(s, es + fs) == SetAll(SetAll(s, es), fs)
    decreases |fs|
  {
    if fs == [] {
      assert es + fs == es;
    } else {
      var front := fs[..|fs| - 1];
      assert es + fs == (es + front) + [fs[|fs| - 1]];
      SetSnoc(s, es + front, fs[|fs| - 1]);
      SetConcat(s, es, front);
    }
  }

  lemma SplitText(es: seq<Entry>)
    requires es != [] && '\n' !in es[0].value
    ensures SplitLines(Text(es)) == [StripCr(Line(es[0]))] + SplitLines(Text(es[1..]))
  {
    NameHasNoNewline(es[0].field);
    SplitConcat([], Line(es[0]), Text(es[1..]));
    SplitOne([], Line(es[0]));
    NilPlus(Line(es[0]));
  }

  lemma SetCons(s: Snapshot, es: seq<Entry>)
    requires es != []
    ensures SetAll(s, es) == SetAll(Put(s, es[0]), es[1..])
  {
    assert es == [es[0]] + es[1..];
    SetConcat(s, [es[0]], es[1..]);
    SetSnoc(s, [], es[0]);
    NilPlus([es[0]]);
  }

  /** Reading a written text sets the entries one after the other. */
  lemma {:induction false} LoadText(s: Snapshot, es: seq<Entry>)
    requires SingleLine(es)
    ensures LoadLines(s, SplitLines(Text(es))) == SetAll(s, es)
    decreases |es|
  {
    if es != [] {
      var rest := es[1..];
      assert forall i :: 0 <= i < |rest| ==> rest[i] == es[i + 1];
      SplitText(es);
      LoadEntry(s, es[0]);
      assert SplitLines(Text(es))[1..] == SplitLines(Text(rest));
      LoadText(Put(s, es[0]), rest);
      SetCons(s, es);
    }
  }

  // ---------- what is read back ----------

  function TrimAll(items: seq<string>): (r: seq<string>)
    ensures |r| == |items|
  {
    seq(|items|, i requires 0 <= i < |items| => Trim(items[i], false))
  }

  lemma TrimAllSnoc(items: seq<string>)
    requires items != []
    ensures TrimAll(items) == TrimAll(items[..|items| - 1]) + [Trim(items[|items| - 1], false)]
  {
  }

  lemma PutItem(s: Snapshot, f: Field, item: string)
    ensures Put(s, Entry(f, Escape(item))) == Set(s, f, Trim(Escape(item), true))
    ensures Unescape(Trim(Escape(item), true)) == Trim(item, false)
  {
    ItemReadBack(item);
  }

  lemma ItemsSnoc(f: Field, items: seq<string>)
    requires items != []
    ensures Items(f, items) == Items(f, items[..|items| - 1]) + [Entry(f, Escape(items[|items| - 1]))]
  {
  }

  /** The list a history field appends to. */
  function ListOf(s: Snapshot, f: Field): seq<string> {
    if f.Health? then s.health else if f.DecisionItem? then s.decisions else s.anomalies
  }

  function WithList(s: Snapshot, f: Field, list: seq<string>): Snapshot {
    if f.Health? then s.(health := list) else if f.DecisionItem? then s.(decisions := list) else s.(anomalies := list)
  }

  lemma AppendItem(s: Snapshot, f: Field, list: seq<string>, item: string)
    requires f.Health? || f.DecisionItem? || f.Anomaly?
    ensures Put(WithList(s, f, list), Entry(f, Escape(item))) == WithList(s, f, list + [Trim(item, false)])
  {
    PutItem(WithList(s, f, list), f, item);
  }

  lemma {:induction false} ItemsReadBack(s: Snapshot, f: Field, items: seq<string>)
    requires f.Health? || f.DecisionItem? || f.Anomaly?
    ensures SetAll(s, Items(f, items)) == WithList(s, f, ListOf(s, f) + TrimAll(items))
  {
    if items == [] {
      assert ListOf(s, f) + TrimAll(items) == ListOf(s, f);
    } else {
      var front, last := items[..|items| - 1], items[|items| - 1];
      ItemsReadBack(s, f, front);
      ItemsSnoc(f, items);
      SetSnoc(s, Items(f, front), Entry(f, Escape(last)));
      AppendItem(s, f, ListOf(s, f) + TrimAll(front), last);
      TrimAllSnoc(items);
      assert ListOf(s, f) + TrimAll(items) == ListOf(s, f) + TrimAll(front) + [Trim(last, false)];
    }
  }

  lemma HistoryReadBack(s: Snapshot, t: Snapshot)
    ensures SetAll(s, History(t)) == s.(health := s.health + TrimAll(t.health),
      decisions := s.decisions + TrimAll(t.decisions), anomalies := s.anomalies + TrimAll(t.anomalies))
  {
    var h, d, a := Items(Health, t.health), Items(DecisionItem, t.decisions), Items(Anomaly, t.anomalies);
    SetConcat(s, h + d, a);
    SetConcat(s, h, d);
    ItemsReadBack(s, Health, t.health);
    ItemsReadBack(SetAll(s, h), DecisionItem, t.decisions);
    ItemsReadBack(SetAll(s, h + d), Anomaly, t.anomalies);
  }

  lemma SetThree(s: Snapshot, a: Entry, b: Entry, c: Entry)
    ensures SetAll(s, [a, b, c]) == Put(Put(Put(s, a), b), c)
  {
    assert [a, b, c] == [a, b] + [c] && [a, b] == [a] + [b] && [a] == [] + [a];
    SetSnoc(s, [a, b], c);
    SetSnoc(s, [a], b);
    SetSnoc(s, [], a);
  }

  lemma NamesReadBack(s: Snapshot, t: Snapshot)
    ensures SetAll(s, Names(t)) ==
      s.(nodeId := Trim(t.nodeId, true), role := Trim(t.role, true), policyVersion := t.policyVersion)
  {
    SetThree(s, Names(t)[0], Names(t)[1], Names(t)[2]);
    NumberReadBack(t.policyVersion);
  }

  lemma CountsReadBack(s: Snapshot, t: Snapshot)
    ensures SetAll(s, Counts(t)) ==
      s.(connectedPeers := t.connectedPeers, knownPeers := t.knownPeers, routePeers := t.routePeers)
  {
    SetThree(s, Counts(t)[0], Counts(t)[1], Counts(t)[2]);
    NumberReadBack(t.connectedPeers);
    NumberReadBack(t.knownPeers);
    NumberReadBack(t.routePeers);
  }

  lemma StampsReadBack(s: Snapshot, t: Snapshot)
    ensures SetAll(s, Stamps(t)) ==
      s.(trustedPeers := t.trustedPeers, lastBeacon := t.lastBeacon, lastSync := t.lastSync)
  {
    SetThree(s, Stamps(t)[0], Stamps(t)[1], Stamps(t)[2]);
    NumberReadBack(t.trustedPeers);
    OptionReadBack(t.lastBeacon);
    OptionReadBack(t.lastSync);
  }

  lemma HeaderReadBack(t: Snapshot)
    ensures SetAll(DEFAULT, Header(t)) ==
      t.(nodeId := Trim(t.nodeId, true), role := Trim(t.role, true),
         lastFailure := None, health := [], decisions := [], anomalies := [])
  {
    SetConcat(DEFAULT, Names(t) + Counts(t), Stamps(t));
    SetConcat(DEFAULT, Names(t), Counts(t));
    NamesReadBack(DEFAULT, t);
    CountsReadBack(SetAll(DEFAULT, Names(t)), t);
    StampsReadBack(SetAll(DEFAULT, Names(t) + Counts(t)), t);
  }

  lemma OptionReadBack(n: Option<u64>)
    ensures var v := Trim(ShowOption(n), true); (if v == [] then None else ParseU64(v)) == n
    ensures '\n' !in ShowOption(n)
  {
    if n.Some? { NumberReadBack(n.value); }
  }

  function FailureReadBack(f: Option<string>): Option<string> {
    if f.None? || Trim(f.value, true) == [] then None else Some(Unescape(Trim(f.value, true)))
  }

  /** What saving and loading make of a snapshot whose header values are single lines. */
  function ReadBack(s: Snapshot): Snapshot {
    s.(nodeId := Trim(s.nodeId, true), role := Trim(s.role, true), lastFailure := FailureReadBack(s.lastFailure),
       health := TrimAll(s.health), decisions := TrimAll(s.decisions), anomalies := TrimAll(s.anomalies))
  }

  predicate SingleLineHeader(s: Snapshot) {
    '\n' !in s.nodeId && '\n' !in s.role && '\n' !in FailureText(s)
  }

  function Loaded(s: Snapshot): Snapshot { LoadLines(DEFAULT, SplitLines(Text(Entries(s)))) }

  lemma ItemsSingleLine(f: Field, items: seq<string>)
    ensures SingleLine(Items(f, items))
  {
    forall i | 0 <= i < |items| ensures '\n' !in Items(f, items)[i].value { UnescapeEscape(items[i]); }
  }

  lemma HistorySingleLine(s: Snapshot)
    ensures SingleLine(History(s))
  {
    ItemsSingleLine(Health, s.health);
    ItemsSingleLine(DecisionItem, s.decisions);
    ItemsSingleLine(Anomaly, s.anomalies);
  }

  lemma SingleLineConcat(es: seq<Entry>, fs: seq<Entry>)
    requires SingleLine(es) && SingleLine(fs)
    ensures SingleLine(es + fs)
  {
  }

  lemma ThreeSingleLine(a: Entry, b: Entry, c: Entry)
    requires '\n' !in a.value && '\n' !in b.value && '\n' !in c.value
    ensures SingleLine([a, b, c])
  {
  }

  lemma HeaderSingleLine(s: Snapshot)
    requires '\n' !in s.nodeId && '\n' !in s.role
    ensures SingleLine(Header(s))
  {
    NumberReadBack(s.policyVersion);
    ThreeSingleLine(Names(s)[0], Names(s)[1], Names(s)[2]);
    CountsSingleLine(s);
    StampsSingleLine(s);
    SingleLineConcat(Names(s), Counts(s));
    SingleLineConcat(Names(s) + Counts(s), Stamps(s));
  }

  lemma CountsSingleLine(s: Snapshot)
    ensures SingleLine(Counts(s))
  {
    NumberReadBack(s.connectedPeers);
    NumberReadBack(s.knownPeers);
    NumberReadBack(s.routePeers);
    ThreeSingleLine(Counts(s)[0], Counts(s)[1], Counts(s)[2]);
  }

  lemma StampsSingleLine(s: Snapshot)
    ensures SingleLine(Stamps(s))
  {
    NumberReadBack(s.trustedPeers);
    OptionReadBack(s.lastBeacon);
    OptionReadBack(s.lastSync);
    ThreeSingleLine(Stamps(s)[0], Stamps(s)[1], Stamps(s)[2]);
  }

  /** Saving and loading a snapshot with single-line header values gives it back with its
      outer white space trimmed. */
  lemma LoadAfterSave(s: Snapshot)
    requires SingleLineHeader(s)
    ensures Loaded(s) == ReadBack(s)
  {
    var f := Entry(LastFailure, FailureText(s));
    HeaderSingleLine(s);
    HistorySingleLine(s);
    SingleLineConcat(Header(s), [f]);
    SingleLineConcat(Header(s) + [f], History(s));
    LoadText(DEFAULT, Entries(s));
    SetEntries(s);
  }

  lemma SetHeader(s: Snapshot)
    ensures SetAll(DEFAULT, Header(s) + [Entry(LastFailure, FailureText(s))])
         == ReadBack(s).(health := [], decisions := [], anomalies := [])
  {
    SetSnoc(DEFAULT, Header(s), Entry(LastFailure, FailureText(s)));
    HeaderReadBack(s);
  }

  lemma SetEntries(s: Snapshot)
    ensures SetAll(DEFAULT, Entries(s)) == ReadBack(s)
  {
    var front := Header(s) + [Entry(LastFailure, FailureText(s))];
    SetConcat(DEFAULT, front, History(s));
    SetHeader(s);
    HistoryReadBack(SetAll(DEFAULT, front), s);
    NilPlus(TrimAll(s.health));
    NilPlus(TrimAll(s.decisions));
    NilPlus(TrimAll(s.anomalies));
  }

  lemma NilPlus<T>(a: seq<T>)
    ensures [] + a == a
  {
  }

  // ---------- exactly which snapshots survive ----------

  predicate FailureKept(f: Option<string>) {
    f.None? || (f.value != [] && Tight(f.value, true) && NoPairs(f.value))
  }

  predicate ItemsKept(items: seq<string>) { forall i :: 0 <= i < |items| ==> Tight(items[i], false) }

  /** Single-line header values, nothing that `trim` would drop, and a failure reason, which is
      written unescaped, that is not empty and has nothing to unescape. */
  predicate Restorable(s: Snapshot) {
    SingleLineHeader(s) && Tight(s.nodeId, true) && Tight(s.role, true) && FailureKept(s.lastFailure)
    && ItemsKept(s.health) && ItemsKept(s.decisions) && ItemsKept(s.anomalies)
  }

  lemma FailureReadBackExact(f: Option<string>)
    ensures FailureReadBack(f) == f <==> FailureKept(f)
  {
    if f.Some? {
      var t := Trim(f.value, true);
      TrimFacts(f.value, true);
      UnescapeShortens(t);
      UnescapeFixes(f.value);
      assert |t| == |f.value| ==> t == f.value by { TrimSameLength(f.value); }
    }
  }

  lemma TrimAllExact(items: seq<string>)
    ensures TrimAll(items) == items <==> ItemsKept(items)
  {
    forall i | 0 <= i < |items| ensures TrimAll(items)[i] == items[i] <==> Tight(items[i], false) {
      TrimFacts(items[i], false);
    }
  }

  lemma ReadBackExact(s: Snapshot)
    requires SingleLineHeader(s)
    ensures ReadBack(s) == s <==> Restorable(s)
  {
    TrimFacts(s.nodeId, true);
    TrimFacts(s.role, true);
    FailureReadBackExact(s.lastFailure);
    TrimAllExact(s.health);
    TrimAllExact(s.decisions);
    TrimAllExact(s.anomalies);
  }

  lemma {:induction false} SplitHasNoNewline(line: string, text: string)
    requires '\n' !in line
    ensures forall l :: l in SplitFrom(line, text) ==> '\n' !in l
    decreases |text|
  {
    if text != [] {
      if text[0] == '\n' {
        SplitHasNoNewline([], text[1..]);
      } else {
        SplitHasNoNewline(line + [text[0]], text[1..]);
      }
    }
  }

  lemma {:induction false} ValueWithin(line: string)
    ensures |Value(line)| <= |line| && forall c :: c in Value(line) ==> c in line
  {
    if line != [] && line[0] != '=' { ValueWithin(line[1..]); }
  }

  lemma LineKeepsNames(s: Snapshot, line: string)
    requires '\n' !in s.nodeId && '\n' !in s.role && '\n' !in line
    ensures '\n' !in LoadLine(s, line).nodeId && '\n' !in LoadLine(s, line).role
  {
    ValueWithin(line);
    TrimFacts(Value(line), true);
  }

  lemma {:induction false} LinesKeepNames(s: Snapshot, lines: seq<string>)
    requires '\n' !in s.nodeId && '\n' !in s.role && forall l :: l in lines ==> '\n' !in l
    ensures '\n' !in LoadLines(s, lines).nodeId && '\n' !in LoadLines(s, lines).role
    decreases |lines|
  {
    if lines != [] {
      LineKeepsNames(s, lines[0]);
      LinesKeepNames(LoadLine(s, lines[0]), lines[1..]);
    }
  }

  ghost predicate FailureBelow(s: Snapshot, n: nat) { s.lastFailure.Some? ==> |s.lastFailure.value| < n }

  lemma PutBelow(s: Snapshot, e: Entry, n: nat)
    requires FailureBelow(s, n) && |e.value| < n
    ensures FailureBelow(Put(s, e), n)
  {
    TrimFacts(e.value, true);
    UnescapeShortens(Trim(e.value, true));
  }

  lemma {:induction false} LinesBelow(s: Snapshot, lines: seq<string>, n: nat)
    requires FailureBelow(s, n) && forall l :: l in lines ==> |l| < n
    ensures FailureBelow(LoadLines(s, lines), n)
    decreases |lines|
  {
    if lines != [] {
      var f := FieldOf(Trim(Key(lines[0]), true));
      assert lines[0] in lines;
      ValueWithin(lines[0]);
      if f.Some? { PutBelow(s, Entry(f.value, Value(lines[0])), n); }
      LinesBelow(LoadLine(s, lines[0]), lines[1..], n);
    }
  }

  lemma {:induction false} SplitShort(line: string, a: string)
    ensures forall l :: l in SplitFrom(line, a + "\n") ==> |l| <= |line| + |a|
    decreases |a|
  {
    var t := a + "\n";
    if a == [] {
      assert t[1..] == [];
    } else {
      assert t[1..] == a[1..] + "\n";
      SplitShort(if a[0] == '\n' then [] else line + [a[0]], a[1..]);
    }
  }

  lemma {:induction false} FirstNewline(s: string) returns (i: nat)
    requires '\n' in s
    ensures i < |s| && s[i] == '\n' && '\n' !in s[..i]
  {
    if s[0] == '\n' {
      i := 0;
    } else {
      var k := FirstNewline(s[1..]);
      i := k + 1;
      assert s[..i] == [s[0]] + s[1..][..k];
    }
  }

  /** A failure reason of several lines is read back, if at all, as something shorter. */
  lemma BrokenFailureBelow(s: Snapshot, f: string)
    requires '\n' in f && s.lastFailure.None?
    ensures FailureBelow(LoadLines(s, SplitLines(Line(Entry(LastFailure, f)) + "\n")), |f|)
  {
    var i := FirstNewline(f);
    var a, b := f[..i], f[i + 1..];
    var e := Entry(LastFailure, a);
    assert Line(Entry(LastFailure, f)) + "\n" == Line(e) + "\n" + (b + "\n");
    SplitConcat([], Line(e), b + "\n");
    NameHasNoNewline(LastFailure);
    SplitOne([], Line(e));
    NilPlus(Line(e));
    var first, rest := [StripCr(Line(e))], SplitFrom([], b + "\n");
    LoadConcat(s, first, rest);
    assert LoadLines(s, first) == LoadLine(s, first[0]) by { assert first[1..] == []; }
    LoadEntry(s, e);
    PutBelow(s, e, |f|);
    SplitShort([], b);
    LinesBelow(Put(s, e), rest, |f|);
  }

  lemma TextOfEntries(s: Snapshot)
    ensures Text(Entries(s)) == Text(Header(s)) + (Line(Entry(LastFailure, FailureText(s))) + "\n" + Text(History(s)))
  {
    var e := Entry(LastFailure, FailureText(s));
    TextConcat(Header(s) + [e], History(s));
    TextSnoc(Header(s), e);
    Regroup(Text(Header(s)), Line(e), "\n", Text(History(s)));
  }

  lemma SplitTextConcat(es: seq<Entry>, rest: string)
    ensures SplitLines(Text(es) + rest) == SplitLines(Text(es)) + SplitLines(rest)
  {
    if es == [] {
      NilPlus(rest);
    } else {
      var front, last := es[..|es| - 1], es[|es| - 1];
      assert es == front + [last];
      TextSnoc(front, last);
      SplitConcat([], Text(front) + Line(last), rest);
    }
  }

  lemma BrokenFailureIsLost(s: Snapshot)
    requires '\n' !in s.nodeId && '\n' !in s.role && '\n' in FailureText(s)
    ensures Loaded(s).lastFailure != s.lastFailure
  {
    var f := FailureText(s);
    var mid := Line(Entry(LastFailure, f));
    TextOfEntries(s);
    HeaderSingleLine(s);
    SplitTextConcat(Header(s), mid + "\n" + Text(History(s)));
    SplitConcat([], mid, Text(History(s)));
    var xs, ys, zs := SplitLines(Text(Header(s))), SplitLines(mid + "\n"), SplitLines(Text(History(s)));
    LoadConcat(DEFAULT, xs, ys + zs);
    LoadText(DEFAULT, Header(s));
    HeaderReadBack(s);
    var s1 := LoadLines(DEFAULT, xs);
    LoadConcat(s1, ys, zs);
    BrokenFailureBelow(s1, f);
    HistorySingleLine(s);
    LoadText(LoadLines(s1, ys), History(s));
    HistoryReadBack(LoadLines(s1, ys), s);
  }

  /** Saving and loading gives a snapshot back exactly when it is restorable. */
  lemma RestoredExactly(s: Snapshot)
    ensures Loaded(s) == s <==> Restorable(s)
  {
    if SingleLineHeader(s) {
      LoadAfterSave(s);
      ReadBackExact(s);
    } else if '\n' in s.nodeId || '\n' in s.role {
      SplitHasNoNewline([], Text(Entries(s)));
      LinesKeepNames(DEFAULT, SplitLines(Text(Entries(s))));
    } else {
      BrokenFailureIsLost(s);
    }
  }
}
