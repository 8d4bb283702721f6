/**
 * The allowlist an operator types (app/modules/settings/service.py) and the scan targets offered
 * from the container's own interfaces (app/modules/discovery/service.py).
 */
module Settings {
  import opened Wrappers
  import opened Sequences
  import opened Texts
  import opened Validation

  datatype ListRefusal = NoEntries | BadEntry(reason: Refusal)

  function Replace(s: string, from: char, to: char): (r: string)
    ensures |r| == |s|
    ensures forall i :: 0 <= i < |s| ==> r[i] == if s[i] == from then to else s[i]
  {
    if s == "" then "" else [if s[0] == from then to else s[0]] + Replace(s[1..], from, to)
  }

  function StripAll(lines: seq<string>): (r: seq<string>)
    ensures |r| == |lines|
    ensures forall i :: 0 <= i < |r| ==> r[i] == Strip(lines[i])
  {
    if lines == [] then [] else [Strip(lines[0])] + StripAll(lines[1..])
  }

  /** The non-empty entries of the form's text area, commas counting as line ends. */
  function Entries(raw: string): seq<string> {
    Filter(StripAll(Lines(Replace(raw, ',', '\n'))), (entry: string) => entry != "")
  }

  /** `seen[x] = None`: an ordered dictionary keeps the first position of a key. */
  function AddOnce<T(==)>(seen: seq<T>, x: T): seq<T> {
    if x in seen then seen else seen + [x]
  }

  /** What one entry stores: the printed form of the network it names, if the gate accepts it. */
  function AllowedText(entry: string): Result<string, Refusal> {
    var network :- ValidateAllowedCidr(entry);
    Success(PrintNetwork(network))
  }

  type Gate = string -> Result<string, Refusal>

  /** Accepted entries in order of first appearance; the first refusal wins. */
  function Collect(entries: seq<string>, seen: seq<string>, gate: Gate): Result<seq<string>, ListRefusal> {
    if entries == [] then Success(seen)
    else
      match gate(entries[0])
      case Failure(reason) => Failure(BadEntry(reason))
      case Success(text) => Collect(entries[1..], AddOnce(seen, text), gate)
  }

  function CidrList(raw: string): Result<seq<string>, ListRefusal> {
    if Entries(raw) == [] then Failure(NoEntries) else Collect(Entries(raw), [], AllowedText)
  }

  /** `parse_cidr_list`. */
  method ParseCidrList(raw: string) returns (r: Result<seq<string>, ListRefusal>)
    ensures r == CidrList(raw)
  {
    var entries := Entries(raw);
    if entries == [] {
      return Failure(NoEntries);
    }
    var seen := [];
    for i := 0 to |entries|
      invariant Collect(entries, [], AllowedText) == Collect(entries[i..], seen, AllowedText)
    {
      var text := AllowedText(entries[i]);
      if text.Failure? {
        return Failure(BadEntry(text.error));
      }
      assert entries[i..][1..] == entries[i + 1..];
      seen := AddOnce(seen, text.value);
    }
    return Success(seen);
  }

  // ---------------------------------------------------------------- what the list means

  lemma {:induction false} CollectYieldsFixedTexts(entries: seq<string>, seen: seq<string>, gate: Gate)
    requires forall e :: gate(e).Success? ==> gate(gate(e).value) == gate(e)
    requires NoDuplicates(seen) && forall s :: s in seen ==> gate(s) == Success(s)
    requires Collect(entries, seen, gate).Success?
    ensures var r := Collect(entries, seen, gate).value;
      seen <= r && NoDuplicates(r) && (forall s :: s in r ==> gate(s) == Success(s))
    ensures entries != [] ==> Collect(entries, seen, gate).value != []
  {
    if entries != [] {
      CollectYieldsFixedTexts(entries[1..], AddOnce(seen, gate(entries[0]).value), gate);
    }
  }

  lemma RestIsDistinct(texts: seq<string>)
    requires NoDuplicates(texts) && texts != []
    ensures NoDuplicates(texts[1..]) && texts[0] !in texts[1..]
    ensures forall s :: s in texts[1..] ==> s in texts
  {
    var rest := texts[1..];
    assert forall i :: 0 <= i < |rest| ==> rest[i] == texts[i + 1];
  }

  lemma {:induction false} CollectKeepsFixedTexts(texts: seq<string>, seen: seq<string>, gate: Gate)
    requires NoDuplicates(texts)
    requires forall s :: s in texts ==> gate(s) == Success(s) && s !in seen
    ensures Collect(texts, seen, gate) == Success(seen + texts)
  {
    if texts == [] {
      assert seen + texts == seen;
    } else {
      var first, rest := texts[0], texts[1..];
      RestIsDistinct(texts);
      CollectKeepsFixedTexts(rest, seen + [first], gate);
      HeadTail(texts);
      Associative(seen, [first], rest);
    }
  }

  /** All or nothing: one refused entry refuses the list, and nothing else does. */
  lemma {:induction false} CollectSucceedsIff(entries: seq<string>, seen: seq<string>, gate: Gate)
    ensures Collect(entries, seen, gate).Success? <==> forall e :: e in entries ==> gate(e).Success?
  {
    if entries != [] {
      assert entries == [entries[0]] + entries[1..];
      if gate(entries[0]).Success? {
        CollectSucceedsIff(entries[1..], AddOnce(seen, gate(entries[0]).value), gate);
      }
    }
  }

  lemma {:induction false} CollectListsExactlyTheEntries(entries: seq<string>, seen: seq<string>, gate: Gate, s: string)
    requires Collect(entries, seen, gate).Success?
    ensures s in Collect(entries, seen, gate).value <==> s in seen || exists e :: e in entries && gate(e) == Success(s)
  {
    if entries != [] {
      assert entries == [entries[0]] + entries[1..];
      CollectListsExactlyTheEntries(entries[1..], AddOnce(seen, gate(entries[0]).value), gate, s);
    }
  }

  lemma AcceptedTextIsFixed(entry: string)
    requires AllowedText(entry).Success?
    ensures AllowedText(AllowedText(entry).value) == AllowedText(entry)
  {
    var n := ParseNetwork(entry).value;
    assert CheckAllowed(n) == Success(n);
    ParsePrintedNetwork(n);
  }

  lemma FixedTextIsPlain(s: string)
    requires AllowedText(s) == Success(s)
    ensures s != "" && Strip(s) == s
    ensures forall i :: 0 <= i < |s| ==> !IsLineBreak(s[i]) && s[i] != ','
  {
    var n := ValidateAllowedCidr(s).value;
    PrintedIsPlain(n);
    assert s == PrintNetwork(n);
  }

  lemma PrintedIsPlain(n: Cidr)
    ensures PrintNetwork(n) != "" && Strip(PrintNetwork(n)) == PrintNetwork(n)
    ensures forall i :: 0 <= i < |PrintNetwork(n)| ==> !IsLineBreak(PrintNetwork(n)[i]) && PrintNetwork(n)[i] != ','
  {
    CharsOfNetwork(n);
  }

  lemma EntriesOfPrintedList(texts: seq<string>)
    requires texts != []
    requires forall s :: s in texts ==> s != "" && Strip(s) == s && forall i :: 0 <= i < |s| ==> !IsLineBreak(s[i]) && s[i] != ','
    ensures Entries(Join(texts, "\n")) == texts
  {
    var raw := Join(texts, "\n");
    forall i | 0 <= i < |raw| ensures raw[i] != ',' {
      assert raw[i] in raw;
      CharsOfJoin(texts, "\n", raw[i]);
    }
    assert Replace(raw, ',', '\n') == raw;
    LinesOfJoin(texts);
    assert StripAll(texts) == texts;
    FilterAll(texts, (entry: string) => entry != "");
  }

  /** A saved list: distinct texts, each stored as itself. */
  lemma SavedListIsFixed(raw: string)
    requires CidrList(raw).Success?
    ensures CidrList(raw).value != [] && NoDuplicates(CidrList(raw).value)
    ensures forall s :: s in CidrList(raw).value ==> AllowedText(s) == Success(s)
  {
    forall e | AllowedText(e).Success? ensures AllowedText(AllowedText(e).value) == AllowedText(e) {
      AcceptedTextIsFixed(e);
    }
    CollectYieldsFixedTexts(Entries(raw), [], AllowedText);
  }

  /**
   * The settings page prints the stored list one entry a line; saving that text unchanged
   * stores the same list: same entries, same order, no repeats.
   */
  lemma SavingThePrintedListChangesNothing(raw: string)
    requires CidrList(raw).Success?
    ensures CidrList(Join(CidrList(raw).value, "\n")) == CidrList(raw)
  {
    SavedListIsFixed(raw);
    var texts := CidrList(raw).value;
    forall s | s in texts
      ensures s != "" && Strip(s) == s
      ensures forall i :: 0 <= i < |s| ==> !IsLineBreak(s[i]) && s[i] != ','
    {
      FixedTextIsPlain(s);
    }
    EntriesOfPrintedList(texts);
    CollectKeepsFixedTexts(texts, [], AllowedText);
    assert [] + texts == texts;
  }

  /** An entry means the text of the network it names, when that network can be managed. */
  ghost predicate Means(entry: string, s: string) {
    exists n :: ValidateAllowedCidr(entry) == Success(n) && s == PrintNetwork(n)
  }

  /** The list is saved exactly when it has an entry and the gate accepts every one; it holds just those. */
  lemma SavedListHoldsExactlyTheEntries(raw: string)
    ensures CidrList(raw).Success? <==> Entries(raw) != [] && forall e :: e in Entries(raw) ==> ValidateAllowedCidr(e).Success?
    ensures CidrList(raw).Success? ==> forall s :: s in CidrList(raw).value <==> exists e :: e in Entries(raw) && Means(e, s)
  {
    CollectSucceedsIff(Entries(raw), [], AllowedText);
    if CidrList(raw).Success? {
      forall s ensures s in CidrList(raw).value <==> exists e :: e in Entries(raw) && Means(e, s) {
        ListedIffMeant(Entries(raw), s);
      }
    }
  }

  lemma MeansIff(entry: string, s: string)
    ensures AllowedText(entry) == Success(s) <==> Means(entry, s)
  {
  }

  lemma ListedIffMeant(entries: seq<string>, s: string)
    requires Collect(entries, [], AllowedText).Success?
    ensures s in Collect(entries, [], AllowedText).value <==> exists e :: e in entries && Means(e, s)
  {
    CollectListsExactlyTheEntries(entries, [], AllowedText, s);
    forall e ensures AllowedText(e) == Success(s) <==> Means(e, s) {
      MeansIff(e, s);
    }
  }

  /** `s` is first given by entry `a`. */
  predicate FirstGiven(entries: seq<string>, gate: Gate, s: string, a: nat) {
    a < |entries| && gate(entries[a]) == Success(s) && forall b :: 0 <= b < a ==> gate(entries[b]) != Success(s)
  }

  lemma FirstOfRest(entries: seq<string>, gate: Gate, s: string, a: nat)
    requires entries != [] && gate(entries[0]) != Success(s) && FirstGiven(entries[1..], gate, s, a)
    ensures FirstGiven(entries, gate, s, a + 1)
  {
    assert forall b :: 1 <= b < |entries| ==> entries[b] == entries[1..][b - 1];
  }

  /** Where each text of the list was first given: later in the list, later among the entries. */
  ghost predicate FirstsInOrder(entries: seq<string>, gate: Gate, texts: seq<string>, firsts: seq<nat>) {
    && |firsts| == |texts|
    && (forall i :: 0 <= i < |texts| ==> FirstGiven(entries, gate, texts[i], firsts[i]))
    && forall i, j :: 0 <= i < j < |firsts| ==> firsts[i] < firsts[j]
  }

  function OneLater(firsts: seq<nat>): (r: seq<nat>)
    ensures |r| == |firsts| && forall i :: 0 <= i < |r| ==> r[i] == firsts[i] + 1
  {
    seq(|firsts|, i requires 0 <= i < |firsts| => firsts[i] + 1)
  }

  lemma FirstsOfRest(entries: seq<string>, gate: Gate, texts: seq<string>, firsts: seq<nat>)
    requires entries != [] && FirstsInOrder(entries[1..], gate, texts, firsts)
    requires forall s :: s in texts ==> gate(entries[0]) != Success(s)
    ensures FirstsInOrder(entries, gate, texts, OneLater(firsts))
  {
    forall i | 0 <= i < |texts| ensures FirstGiven(entries, gate, texts[i], OneLater(firsts)[i]) {
      FirstOfRest(entries, gate, texts[i], firsts[i]);
    }
  }

  lemma FirstAndLater(entries: seq<string>, gate: Gate, s: string, texts: seq<string>, firsts: seq<nat>)
    requires entries != [] && gate(entries[0]) == Success(s) && FirstsInOrder(entries[1..], gate, texts, firsts) && s !in texts
    ensures FirstsInOrder(entries, gate, [s] + texts, [0] + OneLater(firsts))
  {
    FirstsOfRest(entries, gate, texts, firsts);
    assert FirstGiven(entries, gate, s, 0);
  }

  lemma {:induction false} CollectKeepsOrder(entries: seq<string>, seen: seq<string>, gate: Gate) returns (added: seq<string>, firsts: seq<nat>)
    requires Collect(entries, seen, gate).Success?
    ensures Collect(entries, seen, gate).value == seen + added && forall s :: s in added ==> s !in seen
    ensures FirstsInOrder(entries, gate, added, firsts)
  {
    added, firsts := [], [];
    if entries != [] {
      var s := gate(entries[0]).value;
      var more, later := CollectKeepsOrder(entries[1..], AddOnce(seen, s), gate);
      if s in seen {
        FirstsOfRest(entries, gate, more, later);
        added, firsts := more, OneLater(later);
      } else {
        FirstAndLater(entries, gate, s, more, later);
        Associative(seen, [s], more);
        added, firsts := [s] + more, [0] + OneLater(later);
      }
    }
  }

  /** The saved texts stand in the order in which the entries first gave them. */
  lemma SavedInOrder(raw: string) returns (firsts: seq<nat>)
    requires CidrList(raw).Success?
    ensures FirstsInOrder(Entries(raw), AllowedText, CidrList(raw).value, firsts)
  {
    var added, found := CollectKeepsOrder(Entries(raw), [], AllowedText);
    firsts := found;
    assert [] + added == added;
  }

  // ---------------------------------------------------------------- what an entry is

  /** Line breaks and commas end an entry. */
  predicate EndsEntry(c: char) {
    IsLineBreak(c) || c == ','
  }

  type Break = char -> bool

  /** `s[i..j]` reaches from one break, or an end of the text, to the next. */
  predicate PieceAt(s: string, i: nat, j: nat, ends: Break) {
    && i <= j <= |s| && (i == 0 || ends(s[i - 1])) && (j == |s| || ends(s[j]))
    && forall k :: i <= k < j ==> !ends(s[k])
  }

  ghost predicate IsPiece(s: string, x: string, ends: Break) {
    exists i: nat, j: nat :: PieceAt(s, i, j, ends) && x == s[i..j]
  }

  function LineBreaks(): Break {
    (c: char) => IsLineBreak(c)
  }

  function EntryEnds(): Break {
    (c: char) => EndsEntry(c)
  }

  lemma {:induction false} LinesFrom(s: string, j: nat)
    requires j <= |s| && (j == |s| || IsLineBreak(s[j])) && forall k :: 0 <= k < j ==> !IsLineBreak(s[k])
    ensures Lines(s) == [s[..j]] + if j < |s| then Lines(s[j + 1..]) else []
  {
    if j > 0 {
      LinesFrom(s[1..], j - 1);
      assert s[..j] == [s[0]] + s[1..][..j - 1];
      assert j < |s| ==> s[1..][j..] == s[j + 1..];
    } else if s != "" {
      assert s[..0] == "" && s[1..] == s[0 + 1..];
    }
  }

  lemma {:induction false} FirstBreak(s: string) returns (j: nat)
    ensures j <= |s| && (j == |s| || IsLineBreak(s[j])) && forall k :: 0 <= k < j ==> !IsLineBreak(s[k])
  {
    j := 0;
    if s != "" && !IsLineBreak(s[0]) {
      var m := FirstBreak(s[1..]);
      j := m + 1;
    }
  }

  lemma PieceIsFirstOrLater(s: string, j: nat, x: string, ends: Break)
    requires j < |s| && ends(s[j]) && forall k :: 0 <= k < j ==> !ends(s[k])
    requires IsPiece(s, x, ends)
    ensures x == s[..j] || IsPiece(s[j + 1..], x, ends)
  {
    var rest := s[j + 1..];
    var a: nat, b: nat :| PieceAt(s, a, b, ends) && x == s[a..b];
    if a == 0 {
      assert b == j;
    } else {
      assert a > j;
      assert PieceAt(rest, a - (j + 1), b - (j + 1), ends) && x == rest[a - (j + 1)..b - (j + 1)];
    }
  }

  lemma FirstOrLaterIsPiece(s: string, j: nat, x: string, ends: Break)
    requires j < |s| && ends(s[j]) && forall k :: 0 <= k < j ==> !ends(s[k])
    requires x == s[..j] || IsPiece(s[j + 1..], x, ends)
    ensures IsPiece(s, x, ends)
  {
    if x == s[..j] {
      assert PieceAt(s, 0, j, ends) && x == s[0..j];
    } else {
      var a: nat, b: nat :| PieceAt(s[j + 1..], a, b, ends) && x == s[j + 1..][a..b];
      assert PieceAt(s, a + j + 1, b + j + 1, ends) && x == s[a + j + 1..b + j + 1];
    }
  }

  lemma {:induction false} LinesArePieces(s: string, x: string)
    ensures x in Lines(s) <==> IsPiece(s, x, LineBreaks())
    decreases |s|
  {
    var j := FirstBreak(s);
    LinesFrom(s, j);
    if j < |s| {
      LinesArePieces(s[j + 1..], x);
      if IsPiece(s, x, LineBreaks()) {
        PieceIsFirstOrLater(s, j, x, LineBreaks());
      }
      if x == s[..j] || IsPiece(s[j + 1..], x, LineBreaks()) {
        FirstOrLaterIsPiece(s, j, x, LineBreaks());
      }
    } else {
      assert PieceAt(s, 0, |s|, LineBreaks()) && s[0..|s|] == s;
      if a: nat, b: nat :| PieceAt(s, a, b, LineBreaks()) && x == s[a..b] {
        assert a == 0 && b == |s|;
      }
    }
  }

  lemma ReplacedPieces(raw: string, i: nat, j: nat)
    ensures PieceAt(Replace(raw, ',', '\n'), i, j, LineBreaks()) <==> PieceAt(raw, i, j, EntryEnds())
    ensures PieceAt(raw, i, j, EntryEnds()) ==> Replace(raw, ',', '\n')[i..j] == raw[i..j]
  {
    var lines := Replace(raw, ',', '\n');
    assert forall k :: 0 <= k < |raw| ==> (IsLineBreak(lines[k]) <==> EndsEntry(raw[k]));
  }

  /** The entries of a text are its pieces between line breaks and commas, stripped, but for empty ones. */
  lemma EntriesArePieces(raw: string, e: string)
    ensures e in Entries(raw) <==> e != "" && exists piece :: IsPiece(raw, piece, EntryEnds()) && e == Strip(piece)
  {
    var lines := Replace(raw, ',', '\n');
    var stripped := StripAll(Lines(lines));
    if e in Entries(raw) {
      var k :| 0 <= k < |stripped| && stripped[k] == e;
      var piece := Lines(lines)[k];
      LinesArePieces(lines, piece);
      var i: nat, j: nat :| PieceAt(lines, i, j, LineBreaks()) && piece == lines[i..j];
      ReplacedPieces(raw, i, j);
      assert IsPiece(raw, piece, EntryEnds());
    }
    if e != "" && exists piece :: IsPiece(raw, piece, EntryEnds()) && e == Strip(piece) {
      var piece :| IsPiece(raw, piece, EntryEnds()) && e == Strip(piece);
      var i: nat, j: nat :| PieceAt(raw, i, j, EntryEnds()) && piece == raw[i..j];
      ReplacedPieces(raw, i, j);
      LinesArePieces(lines, piece);
      var k :| 0 <= k < |Lines(lines)| && Lines(lines)[k] == piece;
      assert stripped[k] == e;
    }
  }

  // ---------------------------------------------------------------- scope, end to end

  /** `AppSettings.allowed_networks`: the stored texts, parsed again. */
  function AllowedNetworks(texts: seq<string>): (r: seq<Cidr>)
    requires forall s :: s in texts ==> ParseNetwork(s).Success?
    ensures |r| == |texts|
    ensures forall i :: 0 <= i < |r| ==> ParseNetwork(texts[i]) == Success(r[i])
  {
    if texts == [] then [] else [ParseNetwork(texts[0]).value] + AllowedNetworks(texts[1..])
  }

  /**
   * Whatever text the operator saved, every address of every scan target accepted under it is
   * inside the saved ranges, private and never reserved, and no scan exceeds the host cap.
   */
  lemma ScansStayInsideTheSavedRanges(raw: string, target: string, maxHosts: nat)
    requires CidrList(raw).Success?
    ensures forall s :: s in CidrList(raw).value ==> ParseNetwork(s).Success?
    ensures var allowed := AllowedNetworks(CidrList(raw).value);
      var accepted := ValidateScanTarget(target, allowed, maxHosts);
      accepted.Success? ==> InScope(accepted.value, allowed, maxHosts)
  {
    SavedTextsParse(raw);
    var allowed := AllowedNetworks(CidrList(raw).value);
    SavedNetworksAreSafe(raw);
    var accepted := ValidateScanTarget(target, allowed, maxHosts);
    if accepted.Success? {
      ScanStaysInScope(target, allowed, maxHosts, accepted.value);
    }
  }

  lemma SavedTextsParse(raw: string)
    requires CidrList(raw).Success?
    ensures forall s :: s in CidrList(raw).value ==> ParseNetwork(s).Success?
  {
    SavedListIsFixed(raw);
    forall s | s in CidrList(raw).value ensures ParseNetwork(s).Success? {
      assert AllowedText(s).Success?;
    }
  }

  lemma SavedNetworksAreSafe(raw: string)
    requires CidrList(raw).Success?
    requires forall s :: s in CidrList(raw).value ==> ParseNetwork(s).Success?
    ensures forall n :: n in AllowedNetworks(CidrList(raw).value) ==> SafeRange(n)
  {
    SavedListIsFixed(raw);
    var texts := CidrList(raw).value;
    var allowed := AllowedNetworks(texts);
    forall i | 0 <= i < |allowed| ensures SafeRange(allowed[i]) {
      assert AllowedText(texts[i]).Success?;
      CheckedIsSafe(allowed[i]);
    }
  }

  // ---------------------------------------------------------------- suggested targets

  /** `line.split()`. */
  function Words(s: string): seq<string> {
    if s == "" then []
    else if IsSpace(s[0]) then Words(s[1..])
    else
      var rest := Words(s[1..]);
      if |s| == 1 || IsSpace(s[1]) then [[s[0]]] + rest
      else if rest == [] then [[s[0]]]
      else [[s[0]] + rest[0]] + rest[1..]
  }

  /** The network of one `ip -4 -o addr show` line, if it names one worth scanning. */
  function LineNetwork(line: string): Option<Cidr> {
    var fields := Words(line);
    match FirstIndex(fields, (f: string) => f == "inet")
    case None => None
    case Some(i) =>
      if i + 1 >= |fields| then None
      else
        match ParseLoose(fields[i + 1])
        case None => None
        case Some(n) => if IsLoopback(n) then None else Some(n)
  }

  predicate IsLoopback(n: Cidr) {
    n.base / 0x100_0000 == 127 && Last(n) / 0x100_0000 == 127
  }

  function LocalNetworks(lines: seq<string>): (r: seq<Cidr>)
    ensures NoDuplicates(r)
    ensures forall n :: n in r ==> !IsLoopback(n)
  {
    if lines == [] then []
    else
      var before := LocalNetworks(lines[..|lines| - 1]);
      match LineNetwork(lines[|lines| - 1])
      case None => before
      case Some(n) => AddOnce(before, n)
  }

  /** `parse_local_networks`: `seen` holds printed forms, `networks` the networks. */
  method ParseLocalNetworks(output: string) returns (networks: seq<Cidr>)
    ensures networks == LocalNetworks(Lines(output))
  {
    var lines := Lines(output);
    var seen: set<string> := {};
    networks := [];
    for k := 0 to |lines|
      invariant networks == LocalNetworks(lines[..k])
      invariant forall n: Cidr :: PrintNetwork(n) in seen <==> n in networks
    {
      assert lines[..k + 1][..k] == lines[..k];
      var network := LineNetwork(lines[k]);
      if network.Some? && PrintNetwork(network.value) !in seen {
        seen := seen + {PrintNetwork(network.value)};
        networks := networks + [network.value];
        forall n: Cidr ensures PrintNetwork(n) in seen <==> n in networks {
          PrintedNetworksDiffer(n, network.value);
        }
      }
    }
    assert lines[..|lines|] == lines;
  }

  /** A line names the network its first word "inet" is followed by, unless that is a loopback network. */
  ghost predicate LineNames(line: string, n: Cidr) {
    (n.base < 0x7F00_0000 || Last(n) > 0x7FFF_FFFF) && exists i: nat :: NamesAt(Words(line), i, n)
  }

  predicate NamesAt(fields: seq<string>, i: nat, n: Cidr) {
    && i + 1 < |fields| && fields[i] == "inet" && ParseLoose(fields[i + 1]) == Some(n)
    && forall j :: 0 <= j < i ==> fields[j] != "inet"
  }

  lemma LineNetworkIff(line: string, n: Cidr)
    ensures LineNetwork(line) == Some(n) <==> LineNames(line, n)
  {
    var fields, found := Words(line), FirstIndex(Words(line), (f: string) => f == "inet");
    assert IsLoopback(n) <==> n.base >= 0x7F00_0000 && Last(n) <= 0x7FFF_FFFF;
    if i: nat :| NamesAt(fields, i, n) {
      assert found == Some(i);
    }
    assert found.Some? && found.value + 1 < |fields| && ParseLoose(fields[found.value + 1]) == Some(n) ==> NamesAt(fields, found.value, n);
  }

  /** The local networks are those some line names, each once. */
  lemma {:induction false} LocalNetworksAreNamed(lines: seq<string>, n: Cidr)
    ensures NoDuplicates(LocalNetworks(lines))
    ensures n in LocalNetworks(lines) <==> exists line :: line in lines && LineNames(line, n)
  {
    if lines != [] {
      var rest, last := lines[..|lines| - 1], lines[|lines| - 1];
      InitLast(lines);
      LocalNetworksAreNamed(rest, n);
      LineNetworkIff(last, n);
      assert forall line :: line in lines <==> line in rest || line == last;
    }
  }

  /** The networks within the host cap and the allowlist, printed. */
  function Suggested(networks: seq<Cidr>, allowed: seq<Cidr>, maxHosts: nat): seq<string> {
    if networks == [] then []
    else
      var n := networks[|networks| - 1];
      Suggested(networks[..|networks| - 1], allowed, maxHosts)
      + if Size(n.prefix) <= maxHosts && NetworkInAllowlist(n, allowed) then [PrintNetwork(n)] else []
  }

  lemma SuggestOneMore(networks: seq<Cidr>, k: nat, allowed: seq<Cidr>, maxHosts: nat)
    requires k < |networks|
    ensures Suggested(networks[..k + 1], allowed, maxHosts) == Suggested(networks[..k], allowed, maxHosts)
      + if Size(networks[k].prefix) <= maxHosts && NetworkInAllowlist(networks[k], allowed) then [PrintNetwork(networks[k])] else []
  {
    var upTo := networks[..k + 1];
    assert upTo[..|upTo| - 1] == networks[..k] && upTo[|upTo| - 1] == networks[k];
  }

  /** `suggest_scan_targets`, once the interface listing has been read. */
  method SuggestScanTargets(output: string, allowed: seq<Cidr>, maxHosts: nat) returns (suggestions: seq<string>)
    ensures suggestions == Suggested(LocalNetworks(Lines(output)), allowed, maxHosts)
  {
    var networks := ParseLocalNetworks(output);
    suggestions := [];
    for k := 0 to |networks|
      invariant suggestions == Suggested(networks[..k], allowed, maxHosts)
    {
      SuggestOneMore(networks, k, allowed, maxHosts);
      var network := networks[k];
      if Size(network.prefix) > maxHosts {
        continue;
      }
      if !NetworkInAllowlist(network, allowed) {
        continue;
      }
      suggestions := suggestions + [PrintNetwork(network)];
    }
    assert networks[..|networks|] == networks;
  }

  predicate Offered(n: Cidr, allowed: seq<Cidr>, maxHosts: nat, s: string) {
    s == PrintNetwork(n) && Size(n.prefix) <= maxHosts && NetworkInAllowlist(n, allowed)
  }

  lemma {:induction false} SuggestedAreOffered(networks: seq<Cidr>, allowed: seq<Cidr>, maxHosts: nat, s: string)
    ensures s in Suggested(networks, allowed, maxHosts) <==> exists n :: n in networks && Offered(n, allowed, maxHosts, s)
  {
    if networks != [] {
      var rest, last := networks[..|networks| - 1], networks[|networks| - 1];
      SuggestedAreOffered(rest, allowed, maxHosts, s);
      assert forall n :: n in networks <==> n in rest || n == last;
      assert s in Suggested(networks, allowed, maxHosts) <==>
        s in Suggested(rest, allowed, maxHosts) || Offered(last, allowed, maxHosts, s);
    }
  }

  lemma OfferedIsAccepted(n: Cidr, allowed: seq<Cidr>, maxHosts: nat, s: string)
    ensures Offered(n, allowed, maxHosts, s) <==> s == PrintNetwork(n) && ValidateScanTarget(s, allowed, maxHosts) == Success(n)
  {
    ParsePrintedNetwork(n);
  }

  /** A suggestion, typed back as it stands, is accepted; and nothing acceptable is withheld. */
  lemma SuggestionsAreExactlyTheAcceptable(networks: seq<Cidr>, allowed: seq<Cidr>, maxHosts: nat, s: string)
    ensures s in Suggested(networks, allowed, maxHosts) <==>
      exists n :: n in networks && s == PrintNetwork(n) && ValidateScanTarget(s, allowed, maxHosts) == Success(n)
  {
    SuggestedAreOffered(networks, allowed, maxHosts, s);
    forall n: Cidr {
      OfferedIsAccepted(n, allowed, maxHosts, s);
    }
  }

  /** Suggestion `k` is the printed network at `at[k]`, and the networks come in order. */
  ghost predicate PrintedInOrder(suggestions: seq<string>, networks: seq<Cidr>, at: seq<nat>) {
    && |at| == |suggestions|
    && (forall k :: 0 <= k < |at| ==> at[k] < |networks| && suggestions[k] == PrintNetwork(networks[at[k]]))
    && forall i, j :: 0 <= i < j < |at| ==> at[i] < at[j]
  }

  lemma PrintOneMore(suggestions: seq<string>, networks: seq<Cidr>, n: nat, at: seq<nat>)
    requires n < |networks| && PrintedInOrder(suggestions, networks[..n], at)
    ensures PrintedInOrder(suggestions, networks, at)
    ensures PrintedInOrder(suggestions + [PrintNetwork(networks[n])], networks, at + [n])
  {
    assert forall k :: 0 <= k < |at| ==> networks[..n][at[k]] == networks[at[k]];
  }

  /** Suggestions keep the order of the networks, none twice. */
  lemma {:induction false} SuggestedInOrder(networks: seq<Cidr>, allowed: seq<Cidr>, maxHosts: nat) returns (at: seq<nat>)
    ensures PrintedInOrder(Suggested(networks, allowed, maxHosts), networks, at)
  {
    at := [];
    if networks != [] {
      var n := |networks| - 1;
      var before := Suggested(networks[..n], allowed, maxHosts);
      at := SuggestedInOrder(networks[..n], allowed, maxHosts);
      PrintOneMore(before, networks, n, at);
      if Size(networks[n].prefix) <= maxHosts && NetworkInAllowlist(networks[n], allowed) {
        at := at + [n];
      } else {
        assert before + [] == before;
      }
    }
  }
}
