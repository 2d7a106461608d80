/** `getNetworkInfo`: the bytes received and sent over the interfaces,
    summed from `/proc/net/dev`, leaving out the loopback. After the two header lines every
    line that is not blank, has at least ten whitespace-separated tokens and
    whose first token does not contain `lo:` adds its second token to the
    received total and its tenth to the sent total. No rate is computed: the
    per-second fields are always 0. */
module Network {
  import opened Wrappers
  import opened Strings
  import opened Numbers

  datatype NetworkInfo = NetworkInfo(rx: int, tx: int, rxTotal: int, txTotal: int)

  const NoNetwork := NetworkInfo(0, 0, 0, 0)

  /** Whether a line adds to the totals. */
  predicate Counted(line: string) {
    && !IsBlank(line)
    && |Words(line)| >= 10
    && !Contains(Words(line)[0], "lo:")
  }

  /** `parseInt(parts[k]) || 0` for a counted line, 0 for any other. */
  function Field(line: string, k: nat): int
    requires k < 10
  {
    if Counted(line) then ParseInt(Words(line)[k]).GetOr(0) else 0
  }

  /** What a line adds to the received total. */
  function Received(line: string): int {
    Field(line, 1)
  }

  /** What a line adds to the sent total. */
  function Sent(line: string): int {
    Field(line, 9)
  }

  /** The sum of what each line adds. */
  function Total(lines: seq<string>, count: string -> int): int
    decreases |lines|
  {
    if |lines| == 0 then 0 else Total(lines[..|lines| - 1], count) + count(lines[|lines| - 1])
  }

  /** The result of `getNetworkInfo` for the contents of `/proc/net/dev`, None
      when it could not be read. */
  function NetworkOf(contents: Option<string>): NetworkInfo {
    match contents
    case None => NoNetwork
    case Some(text) =>
      var lines := Drop(Split(text, '\n'), 2);
      NetworkInfo(0, 0, Total(lines, Received), Total(lines, Sent))
  }

  /** `getNetworkInfo`: both totals are accumulated in one pass over the lines. */
  method GetNetworkInfo(contents: Option<string>) returns (info: NetworkInfo)
    ensures info == NetworkOf(contents)
    ensures info.rx == 0 && info.tx == 0
  {
    if contents.None? {
      return NoNetwork;
    }
    var lines := Drop(Split(contents.value, '\n'), 2);
    var totalRx, totalTx := 0, 0;
    for i := 0 to |lines|
      invariant totalRx == Total(lines[..i], Received)
      invariant totalTx == Total(lines[..i], Sent)
    {
      TotalSnoc(lines, i, Received);
      TotalSnoc(lines, i, Sent);
      var line := lines[i];
      if IsBlank(line) {
        continue;
      }
      var parts := Words(line);
      if |parts| >= 10 && !Contains(parts[0], "lo:") {
        totalRx := totalRx + ParseInt(parts[1]).GetOr(0);
        totalTx := totalTx + ParseInt(parts[9]).GetOr(0);
      }
    }
    LastPrefix(lines);
    info := NetworkInfo(0, 0, totalRx, totalTx);
  }

  lemma TotalSnoc(lines: seq<string>, i: nat, count: string -> int)
    requires i < |lines|
    ensures Total(lines[..i + 1], count) == Total(lines[..i], count) + count(lines[i])
  {
    assert lines[..i + 1][..i] == lines[..i];
  }

  lemma LastPrefix<T>(xs: seq<T>)
    ensures xs[..|xs|] == xs
  {
  }

  /** The lines are summed independently: the total over two stretches of
      the file is the sum of their totals. */
  lemma {:induction false} TotalAppend(a: seq<string>, b: seq<string>, count: string -> int)
    ensures Total(a + b, count) == Total(a, count) + Total(b, count)
    decreases |b|
  {
    if |b| == 0 {
      assert a + b == a;
    } else {
      var n := |b| - 1;
      assert (a + b)[..|a + b| - 1] == a + b[..n];
      assert (a + b)[|a + b| - 1] == b[n];
      TotalAppend(a, b[..n], count);
    }
  }

  /** A line that is not counted, wherever it stands, changes neither total. */
  lemma Uncounted(a: seq<string>, line: string, b: seq<string>)
    requires !Counted(line)
    ensures Total(a + [line] + b, Received) == Total(a + b, Received)
    ensures Total(a + [line] + b, Sent) == Total(a + b, Sent)
  {
    TotalAppend(a + [line], b, Received);
    TotalAppend(a + [line], b, Sent);
    TotalAppend(a, b, Received);
    TotalAppend(a, b, Sent);
    OneLine(a, line, Received);
    OneLine(a, line, Sent);
  }

  lemma OneLine(a: seq<string>, line: string, count: string -> int)
    ensures Total(a + [line], count) == Total(a, count) + count(line)
  {
    assert (a + [line])[..|a|] == a;
  }

  /** An interface as the kernel reports it: its name and its sixteen
      counters, bytes received first and bytes sent ninth. */
  datatype Interface = Interface(name: string, counters: seq<nat>)

  predicate Printable(iface: Interface) {
    IsWord(iface.name) && |iface.counters| >= 9
  }

  /** Whether the interface is one the totals leave out: its token contains
      `lo:`, which holds for the loopback interface `lo` and also for any
      interface whose name ends in `lo`. */
  predicate Loopback(iface: Interface) {
    Contains(iface.name + ":", "lo:")
  }

  function Numerals(ns: seq<nat>): (r: seq<string>)
    ensures |r| == |ns|
    ensures forall k :: 0 <= k < |ns| ==> r[k] == NatToString(ns[k])
  {
    seq(|ns|, k requires 0 <= k < |ns| => NatToString(ns[k]))
  }

  /** The tokens of the interface's line in `/proc/net/dev`. */
  function Tokens(iface: Interface): seq<string> {
    [iface.name + ":"] + Numerals(iface.counters)
  }

  /** The interface's line, tokens separated by spaces. */
  function DevLine(iface: Interface): string {
    Join(Tokens(iface), ' ')
  }

  /** The line of an interface adds its received and sent bytes, or nothing
      for the loopback. */
  lemma DevLineCounts(iface: Interface)
    requires Printable(iface)
    ensures Received(DevLine(iface)) == if Loopback(iface) then 0 else iface.counters[0]
    ensures Sent(DevLine(iface)) == if Loopback(iface) then 0 else iface.counters[8]
  {
    DevLineWords(iface);
    CounterToken(iface.counters[0]);
    CounterToken(iface.counters[8]);
  }

  lemma DevLineWords(iface: Interface)
    requires Printable(iface)
    ensures !IsBlank(DevLine(iface))
    ensures Words(DevLine(iface)) == Tokens(iface)
    ensures |Tokens(iface)| >= 10
    ensures Tokens(iface)[0] == iface.name + ":"
    ensures Tokens(iface)[1] == NatToString(iface.counters[0])
    ensures Tokens(iface)[9] == NatToString(iface.counters[8])
  {
    var ws := Tokens(iface);
    TokensAreWords(iface);
    WordsJoin(ws);
    JoinStart(ws, ' ');
    NotBlank(DevLine(iface));
  }

  lemma TokensAreWords(iface: Interface)
    requires Printable(iface)
    ensures forall k :: 0 <= k < |Tokens(iface)| ==> IsWord(Tokens(iface)[k])
  {
    var first := iface.name + ":";
    assert IsWord(first) by {
      assert forall j :: 0 <= j < |iface.name| ==> first[j] == iface.name[j];
    }
  }

  lemma CounterToken(n: nat)
    ensures ParseInt(NatToString(n)).GetOr(0) == n
  {
    ParseIntOfRendered(n, "");
    assert NatToString(n) + "" == NatToString(n);
  }

  /** The received bytes of the interfaces the totals count. */
  function ReceivedBy(ifaces: seq<Interface>): int
    requires forall k :: 0 <= k < |ifaces| ==> Printable(ifaces[k])
    decreases |ifaces|
  {
    if |ifaces| == 0 then 0
    else
      var last := ifaces[|ifaces| - 1];
      assert Printable(last);
      ReceivedBy(ifaces[..|ifaces| - 1]) + if Loopback(last) then 0 else last.counters[0]
  }

  /** The sent bytes of the interfaces the totals count. */
  function SentBy(ifaces: seq<Interface>): int
    requires forall k :: 0 <= k < |ifaces| ==> Printable(ifaces[k])
    decreases |ifaces|
  {
    if |ifaces| == 0 then 0
    else
      var last := ifaces[|ifaces| - 1];
      assert Printable(last);
      SentBy(ifaces[..|ifaces| - 1]) + if Loopback(last) then 0 else last.counters[8]
  }

  function DevLines(ifaces: seq<Interface>): (lines: seq<string>)
    ensures |lines| == |ifaces|
    ensures forall k :: 0 <= k < |ifaces| ==> lines[k] == DevLine(ifaces[k])
  {
    seq(|ifaces|, k requires 0 <= k < |ifaces| => DevLine(ifaces[k]))
  }

  /** The totals over the interfaces' lines are the bytes of the interfaces
      other than the loopback. */
  lemma {:induction false} TotalsOfLines(ifaces: seq<Interface>)
    requires forall k :: 0 <= k < |ifaces| ==> Printable(ifaces[k])
    ensures Total(DevLines(ifaces), Received) == ReceivedBy(ifaces)
    ensures Total(DevLines(ifaces), Sent) == SentBy(ifaces)
    decreases |ifaces|
  {
    if |ifaces| > 0 {
      var n := |ifaces| - 1;
      TotalsOfLines(ifaces[..n]);
      DevLineCounts(ifaces[n]);
      DevLinesInit(ifaces);
    }
  }

  lemma DevLinesInit(ifaces: seq<Interface>)
    requires |ifaces| > 0
    ensures DevLines(ifaces)[..|ifaces| - 1] == DevLines(ifaces[..|ifaces| - 1])
    ensures DevLines(ifaces)[|ifaces| - 1] == DevLine(ifaces[|ifaces| - 1])
  {
  }

  /** What the kernel writes: two header lines, one line per interface and a
      final line break, gives the totals of the interfaces other than the
      loopback and no rates. */
  lemma NetworkOfDev(h1: string, h2: string, ifaces: seq<Interface>)
    requires '\n' !in h1 && '\n' !in h2
    requires forall k :: 0 <= k < |ifaces| ==> Printable(ifaces[k])
    ensures NetworkOf(Some(Join([h1, h2] + DevLines(ifaces) + [""], '\n')))
         == NetworkInfo(0, 0, ReceivedBy(ifaces), SentBy(ifaces))
  {
    var lines := DevLines(ifaces);
    DevLinesNoNewline(ifaces);
    AfterHeaders(h1, h2, lines);
    TrailingBlank(lines);
    TotalsOfLines(ifaces);
  }

  /** The empty piece after the final line break adds nothing. */
  lemma TrailingBlank(lines: seq<string>)
    ensures Total(lines + [""], Received) == Total(lines, Received)
    ensures Total(lines + [""], Sent) == Total(lines, Sent)
  {
    BlankEmpty();
    OneLine(lines, "", Received);
    OneLine(lines, "", Sent);
  }

  lemma DevLinesNoNewline(ifaces: seq<Interface>)
    requires forall k :: 0 <= k < |ifaces| ==> Printable(ifaces[k])
    ensures forall k :: 0 <= k < |DevLines(ifaces)| ==> '\n' !in DevLines(ifaces)[k]
  {
    forall k | 0 <= k < |ifaces|
      ensures '\n' !in DevLine(ifaces[k])
    {
      DevLineNoNewline(ifaces[k]);
    }
  }

  lemma DevLineNoNewline(iface: Interface)
    requires Printable(iface)
    ensures '\n' !in DevLine(iface)
  {
    TokensAreWords(iface);
    WordsAvoidNewline(Tokens(iface));
    JoinAvoids(Tokens(iface), ' ', '\n');
  }

  /** Splitting two header lines, lines and a final line break, and dropping
      the headers, gives the lines and an empty last piece. */
  lemma AfterHeaders(h1: string, h2: string, lines: seq<string>)
    requires '\n' !in h1 && '\n' !in h2
    requires forall k :: 0 <= k < |lines| ==> '\n' !in lines[k]
    ensures Drop(Split(Join([h1, h2] + lines + [""], '\n'), '\n'), 2) == lines + [""]
  {
    PiecesAvoid(h1, h2, lines, '\n');
    DropPieces([h1, h2] + lines + [""], '\n');
    PiecesTail(h1, h2, lines);
  }

  lemma PiecesAvoid(h1: string, h2: string, lines: seq<string>, sep: char)
    requires sep !in h1 && sep !in h2
    requires forall k :: 0 <= k < |lines| ==> sep !in lines[k]
    ensures forall k :: 0 <= k < |[h1, h2] + lines + [""]| ==> sep !in ([h1, h2] + lines + [""])[k]
  {
    var pieces := [h1, h2] + lines + [""];
    forall k | 0 <= k < |pieces|
      ensures sep !in pieces[k]
    {
      if 1 < k <= |lines| + 1 {
        assert pieces[k] == lines[k - 2];
      }
    }
  }

  lemma PiecesTail(h1: string, h2: string, lines: seq<string>)
    ensures ([h1, h2] + lines + [""])[2..] == lines + [""]
  {
  }

  lemma DropPieces(pieces: seq<string>, sep: char)
    requires |pieces| >= 2
    requires forall k :: 0 <= k < |pieces| ==> sep !in pieces[k]
    ensures Drop(Split(Join(pieces, sep), sep), 2) == pieces[2..]
  {
    SplitJoin(pieces, sep);
  }
}
