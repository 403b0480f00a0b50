/**
 * Pass 1 of the assembler and the label table (`procFirstPass`,
 * `findLabelAddress` and the global `labelTable` of assemble.c).
 *
 * Every line read gets the next address, starting at 0, whatever it holds;
 * a line with a label appends (label, address) to the table. Pass 1 does not
 * look for duplicates. Lookup scans the table from the front and answers -1
 * when no entry has the name.
 */
module Labels {
  import opened Lines
  import opened Reader

  /** MAX_INSTRUCTION: the capacity of the label table. */
  const MaxInstruction: nat := 1024

  datatype Entry = Entry(name: String, addr: int)

  /** What pass 1 leaves behind: the program exits on a line too long, otherwise the table is complete. */
  datatype FirstPassResult = Aborted | Table(entries: seq<Entry>)

  predicate HasLabel(f: Fields) {
    |f.labelName| > 0
  }

  /** The table that pass 1 builds from `lines`, one entry per labelled line, appended in order. */
  function TableOf(lines: seq<Fields>): seq<Entry>
    decreases |lines|
  {
    if |lines| == 0 then []
    else
      var n := |lines| - 1;
      TableOf(lines[..n]) + (if HasLabel(lines[n]) then [Entry(lines[n].labelName, n)] else [])
  }

  /**
   * `t` is the label table of `lines`: every entry names the labelled line at
   * its address, every labelled line has its entry, and entries are in
   * source order.
   */
  predicate IsLabelTable(t: seq<Entry>, lines: seq<Fields>) {
    EntriesSound(t, lines) && EntriesComplete(t, lines) && AddressesIncrease(t)
  }

  predicate EntriesSound(t: seq<Entry>, lines: seq<Fields>) {
    forall i | 0 <= i < |t| ::
      0 <= t[i].addr < |lines| && HasLabel(lines[t[i].addr]) && t[i].name == lines[t[i].addr].labelName
  }

  predicate EntriesComplete(t: seq<Entry>, lines: seq<Fields>) {
    forall k | 0 <= k < |lines| && HasLabel(lines[k]) ::
      exists i :: 0 <= i < |t| && t[i] == Entry(lines[k].labelName, k)
  }

  predicate AddressesIncrease(t: seq<Entry>) {
    forall i, j | 0 <= i < j < |t| :: t[i].addr < t[j].addr
  }

  /** The ordinals of the labelled lines. */
  function LabelledLines(lines: seq<Fields>): set<int> {
    set k | 0 <= k < |lines| && HasLabel(lines[k])
  }

  /** A label is defined when some line carries it. */
  predicate Defined(lines: seq<Fields>, x: String) {
    |x| > 0 && exists k :: 0 <= k < |lines| && lines[k].labelName == x
  }

  /** Pass 1 builds the label table of the lines it reads. */
  lemma TableOfIsLabelTable(lines: seq<Fields>)
    ensures IsLabelTable(TableOf(lines), lines)
  {
    TableOfSound(lines);
    TableOfComplete(lines);
    TableOfIncreases(lines);
  }

  lemma {:induction false} TableOfSound(lines: seq<Fields>)
    ensures EntriesSound(TableOf(lines), lines)
    decreases |lines|
  {
    if |lines| > 0 {
      var n := |lines| - 1;
      var pre := lines[..n];
      TableOfSound(pre);
      var t0 := TableOf(pre);
      var t := TableOf(lines);
      assert t == t0 + (if HasLabel(lines[n]) then [Entry(lines[n].labelName, n)] else []);
      forall i | 0 <= i < |t|
        ensures 0 <= t[i].addr < |lines| && HasLabel(lines[t[i].addr]) && t[i].name == lines[t[i].addr].labelName
      {
        if i < |t0| {
          assert t[i] == t0[i];
          assert lines[t0[i].addr] == pre[t0[i].addr];
        }
      }
    }
  }

  lemma {:induction false} TableOfComplete(lines: seq<Fields>)
    ensures EntriesComplete(TableOf(lines), lines)
    decreases |lines|
  {
    if |lines| > 0 {
      var n := |lines| - 1;
      var pre := lines[..n];
      TableOfComplete(pre);
      var t0 := TableOf(pre);
      var t := TableOf(lines);
      assert t == t0 + (if HasLabel(lines[n]) then [Entry(lines[n].labelName, n)] else []);
      forall k | 0 <= k < |lines| && HasLabel(lines[k])
        ensures exists i :: 0 <= i < |t| && t[i] == Entry(lines[k].labelName, k)
      {
        if k < n {
          assert lines[k] == pre[k];
          var i :| 0 <= i < |t0| && t0[i] == Entry(pre[k].labelName, k);
          assert t[i] == t0[i];
        } else {
          assert t[|t| - 1] == Entry(lines[k].labelName, k);
        }
      }
    }
  }

  lemma {:induction false} TableOfIncreases(lines: seq<Fields>)
    ensures AddressesIncrease(TableOf(lines))
    ensures forall i | 0 <= i < |TableOf(lines)| :: TableOf(lines)[i].addr < |lines|
    decreases |lines|
  {
    if |lines| > 0 {
      var n := |lines| - 1;
      var pre := lines[..n];
      TableOfIncreases(pre);
      var t0 := TableOf(pre);
      var t := TableOf(lines);
      assert t == t0 + (if HasLabel(lines[n]) then [Entry(lines[n].labelName, n)] else []);
      forall i | 0 <= i < |t|
        ensures t[i].addr < |lines|
      {
        if i < |t0| {
          assert t[i] == t0[i];
        }
      }
      forall i, j | 0 <= i < j < |t|
        ensures t[i].addr < t[j].addr
      {
        if j < |t0| {
          assert t[i] == t0[i] && t[j] == t0[j];
        } else {
          assert t[i] == t0[i];
        }
      }
    }
  }

  /** `numAddrs` after pass 1 is the number of labelled lines. */
  lemma {:induction false} TableOfSize(lines: seq<Fields>)
    ensures |TableOf(lines)| == |LabelledLines(lines)|
    decreases |lines|
  {
    if |lines| > 0 {
      var n := |lines| - 1;
      var pre := lines[..n];
      TableOfSize(pre);
      var s0 := LabelledLines(pre);
      if HasLabel(lines[n]) {
        assert LabelledLines(lines) == s0 + {n};
        assert n !in s0;
      } else {
        assert LabelledLines(lines) == s0;
      }
    }
  }

  /** Pass 1 only ever appends: the table of a prefix of the file is a prefix of the table of the file. */
  lemma {:induction false} TableOfPrefix(a: seq<Fields>, b: seq<Fields>)
    ensures TableOf(a) <= TableOf(a + b)
    decreases |b|
  {
    if |b| > 0 {
      var ab := a + b;
      var n := |ab| - 1;
      assert ab[..n] == a + b[..|b| - 1];
      TableOfPrefix(a, b[..|b| - 1]);
    } else {
      assert a + b == a;
    }
  }

  /**
   * `findLabelAddress`: the address of the first entry named `x`, scanning
   * from the front, or -1 when no entry has that name.
   */
  function FindLabelAddress(t: seq<Entry>, x: String): (r: int)
    ensures (forall i | 0 <= i < |t| :: t[i].name != x) ==> r == -1
    ensures forall i | 0 <= i < |t| && t[i].name == x && (forall j | 0 <= j < i :: t[j].name != x) ::
      r == t[i].addr
    decreases |t|
  {
    if |t| == 0 then -1
    else if t[0].name == x then t[0].addr
    else FindLabelAddress(t[1..], x)
  }

  /** A label whose first defining line is line `k` resolves to `k`, wherever it is referenced. */
  lemma ResolvesToFirstDefinition(t: seq<Entry>, lines: seq<Fields>, x: String, k: nat)
    requires IsLabelTable(t, lines)
    requires k < |lines| && |x| > 0 && lines[k].labelName == x
    requires forall j | 0 <= j < k :: lines[j].labelName != x
    ensures FindLabelAddress(t, x) == k
  {
    assert HasLabel(lines[k]);
    var i :| 0 <= i < |t| && t[i] == Entry(x, k);
    forall j | 0 <= j < i
      ensures t[j].name != x
    {
      assert t[j].addr < t[i].addr;
      assert lines[t[j].addr].labelName != x;
    }
  }

  /** Lookup answers -1 exactly for names no line defines; no stored address is -1. */
  lemma LookupMissIffUndefined(t: seq<Entry>, lines: seq<Fields>, x: String)
    requires IsLabelTable(t, lines)
    ensures FindLabelAddress(t, x) == -1 <==> !Defined(lines, x)
  {
    if Defined(lines, x) {
      var k :| 0 <= k < |lines| && lines[k].labelName == x;
      FirstDefinitionExists(lines, x, k);
      var k0 :| 0 <= k0 <= k && lines[k0].labelName == x && forall j | 0 <= j < k0 :: lines[j].labelName != x;
      ResolvesToFirstDefinition(t, lines, x, k0);
    } else {
      forall i | 0 <= i < |t|
        ensures t[i].name != x
      {
        assert lines[t[i].addr].labelName == t[i].name;
      }
    }
  }

  lemma {:induction false} FirstDefinitionExists(lines: seq<Fields>, x: String, k: nat)
    requires k < |lines| && lines[k].labelName == x
    ensures exists k0 :: 0 <= k0 <= k && lines[k0].labelName == x && forall j | 0 <= j < k0 :: lines[j].labelName != x
    decreases k
  {
    if exists j :: 0 <= j < k && lines[j].labelName == x {
      var j :| 0 <= j < k && lines[j].labelName == x;
      FirstDefinitionExists(lines, x, j);
    } else {
      assert forall j | 0 <= j < k :: lines[j].labelName != x;
    }
  }

  /**
   * No duplicate check: a label defined on lines `j` and `k` has two entries,
   * and lookup never returns the later line.
   */
  lemma DuplicateLabelsKept(t: seq<Entry>, lines: seq<Fields>, j: nat, k: nat)
    requires IsLabelTable(t, lines)
    requires j < k < |lines| && HasLabel(lines[j]) && lines[j].labelName == lines[k].labelName
    ensures exists i1, i2 :: 0 <= i1 < i2 < |t| && t[i1] == Entry(lines[j].labelName, j) && t[i2] == Entry(lines[k].labelName, k)
    ensures 0 <= FindLabelAddress(t, lines[k].labelName) <= j
  {
    var x := lines[j].labelName;
    FirstDefinitionExists(lines, x, j);
    var k0 :| 0 <= k0 <= j && lines[k0].labelName == x && forall m | 0 <= m < k0 :: lines[m].labelName != x;
    ResolvesToFirstDefinition(t, lines, x, k0);
    DuplicateEntries(t, lines, j, k);
  }

  lemma DuplicateEntries(t: seq<Entry>, lines: seq<Fields>, j: nat, k: nat)
    requires IsLabelTable(t, lines)
    requires j < k < |lines| && HasLabel(lines[j]) && lines[j].labelName == lines[k].labelName
    ensures exists i1, i2 :: 0 <= i1 < i2 < |t| && t[i1] == Entry(lines[j].labelName, j) && t[i2] == Entry(lines[k].labelName, k)
  {
    var x := lines[j].labelName;
    var i1 :| 0 <= i1 < |t| && t[i1] == Entry(x, j);
    var i2 :| 0 <= i2 < |t| && t[i2] == Entry(x, k);
    assert i1 < i2;
  }

  /**
   * `procFirstPass`: reset the table, then read the file line by line, giving
   * each line the next address and recording labelled lines. The table has
   * room for MaxInstruction entries and pass 1 does not check this, so the
   * labelled lines must fit.
   */
  method FirstPass(input: String) returns (r: FirstPassResult)
    requires |TableOf(ReadAll(input).lines)| <= MaxInstruction
    ensures r.Aborted? <==> ReadAll(input).tooLong
    ensures r.Table? ==> r.entries == TableOf(ReadAll(input).lines)
    ensures r.Table? ==> IsLabelTable(r.entries, ReadAll(input).lines)
    ensures r.Table? ==> |r.entries| == |LabelledLines(ReadAll(input).lines)|
  {
    var entries: seq<Entry> := [];
    var curAddr := 0;
    var rest := input;
    ghost var read: seq<Fields> := [];
    while true
      invariant ReadAll(input) == Listing(read + ReadAll(rest).lines, ReadAll(rest).tooLong)
      invariant curAddr == |read|
      invariant entries == TableOf(read)
      decreases |rest|
    {
      match ReadAndParse(rest)
      case EndOfFile =>
        assert read + ReadAll(rest).lines == read;
        TableOfIsLabelTable(read);
        TableOfSize(read);
        return Table(entries);
      case TooLong =>
        return Aborted;
      case Line(f, rest') =>
        ListingStep(input, read, rest, f, rest');
        TableOfSnoc(read, f);
        if HasLabel(f) {
          TableOfPrefix(read + [f], ReadAll(rest').lines);
          assert |entries| < MaxInstruction;
          entries := entries + [Entry(f.labelName, curAddr)];
        }
        curAddr := curAddr + 1;
        read := read + [f];
        rest := rest';
    }
  }

  /**
   * After pass 1 over a file, a label first defined on line `k` resolves to
   * `k`, and a name no line defines resolves to -1.
   */
  lemma LookupAfterFirstPass(input: String, x: String)
    requires !ReadAll(input).tooLong
    ensures var lines := ReadAll(input).lines;
      forall k | 0 <= k < |lines| && |x| > 0 && lines[k].labelName == x && (forall j | 0 <= j < k :: lines[j].labelName != x) ::
        FindLabelAddress(TableOf(lines), x) == k
    ensures FindLabelAddress(TableOf(ReadAll(input).lines), x) == -1 <==> !Defined(ReadAll(input).lines, x)
  {
    var lines := ReadAll(input).lines;
    TableOfIsLabelTable(lines);
    forall k | 0 <= k < |lines| && |x| > 0 && lines[k].labelName == x && (forall j | 0 <= j < k :: lines[j].labelName != x)
      ensures FindLabelAddress(TableOf(lines), x) == k
    {
      ResolvesToFirstDefinition(TableOf(lines), lines, x, k);
    }
    LookupMissIffUndefined(TableOf(lines), lines, x);
  }

  /** One more line read joins the lines already read. */
  lemma ListingStep(input: String, read: seq<Fields>, rest: String, f: Fields, rest': String)
    requires ReadAll(input) == Listing(read + ReadAll(rest).lines, ReadAll(rest).tooLong)
    requires ReadAndParse(rest) == Line(f, rest')
    ensures ReadAll(input) == Listing((read + [f]) + ReadAll(rest').lines, ReadAll(rest').tooLong)
  {
    ReadAllLine(rest);
    assert read + ([f] + ReadAll(rest').lines) == (read + [f]) + ReadAll(rest').lines;
  }

  lemma TableOfSnoc(read: seq<Fields>, f: Fields)
    ensures TableOf(read + [f]) == TableOf(read) + (if HasLabel(f) then [Entry(f.labelName, |read|)] else [])
  {
    assert (read + [f])[..|read|] == read;
  }
}
