/**
 * The line tokenizer of the assembler (`readAndParse` in assemble.c).
 *
 * A line is split with two `sscanf` calls whose conversions use the scanset
 * {tab, newline, carriage return, space}: first an optional label, the longest
 * separator-free prefix of the line, then up to four further separator-free
 * tokens (opcode, arg0, arg1, arg2), each introduced by at least one separator.
 * The line itself is the C string held in the read buffer, so it ends at the
 * first NUL character. Positions in the line are indices, as the C code
 * advances a pointer over its buffer.
 */
module Lines {

  type String = seq<char>

  /** The characters of the scanset `[\t\n\r ]` that separates fields. */
  predicate IsSep(c: char) {
    c == '\t' || c == '\n' || c == '\r' || c == ' '
  }

  predicate NoSep(s: String) {
    forall i | 0 <= i < |s| :: !IsSep(s[i])
  }

  predicate NoNul(s: String) {
    forall i | 0 <= i < |s| :: s[i] != '\0'
  }

  /** A field that the tokenizer can return: non-empty, free of separators and of NUL. */
  predicate IsToken(t: String) {
    |t| > 0 && NoSep(t) && NoNul(t)
  }

  /** `strlen` of the buffer from position `i`: the index of the first NUL at or after `i`. */
  function StrLen(buf: String, i: nat): (j: nat)
    requires i <= |buf|
    ensures i <= j <= |buf|
    ensures forall k | i <= k < j :: buf[k] != '\0'
    ensures j < |buf| ==> buf[j] == '\0'
    decreases |buf| - i
  {
    if i == |buf| || buf[i] == '\0' then i else StrLen(buf, i + 1)
  }

  /** The contents of a character buffer seen as a C string: everything before the first NUL. */
  function CString(buf: String): (s: String)
    ensures s <= buf && NoNul(s)
    ensures |s| < |buf| ==> buf[|s|] == '\0'
  {
    buf[..StrLen(buf, 0)]
  }

  /** End of the conversion `%[^\t\n\r ]` started at `i`: the first separator at or after `i`. */
  function WordEnd(s: String, i: nat): (j: nat)
    requires i <= |s|
    ensures i <= j <= |s|
    ensures forall k | i <= k < j :: !IsSep(s[k])
    ensures j < |s| ==> IsSep(s[j])
    decreases |s| - i
  {
    if i == |s| || IsSep(s[i]) then i else WordEnd(s, i + 1)
  }

  /** End of the conversion `%*[\t\n\r ]` started at `i`: the first non-separator at or after `i`. */
  function GapEnd(s: String, i: nat): (j: nat)
    requires i <= |s|
    ensures i <= j <= |s|
    ensures forall k | i <= k < j :: IsSep(s[k])
    ensures j < |s| ==> !IsSep(s[j])
    decreases |s| - i
  {
    if i == |s| || !IsSep(s[i]) then i else GapEnd(s, i + 1)
  }

  /**
   * The second `sscanf` of the tokenizer, started at position `i`: up to `n`
   * repetitions of `%*[\t\n\r ]%[^\t\n\r ]`. The scan stops at the first
   * directive that fails: a skip that finds no separator, or a token
   * conversion at the end of the string.
   */
  function ScanFields(s: String, i: nat, n: nat): (toks: seq<String>)
    requires i <= |s|
    ensures |toks| <= n
    ensures forall k | 0 <= k < |toks| :: |toks[k]| > 0 && NoSep(toks[k])
    decreases n
  {
    if n == 0 then []
    else
      var j := GapEnd(s, i);
      if j == i then []
      else
        var k := WordEnd(s, j);
        if k == j then [] else [s[j..k]] + ScanFields(s, k, n - 1)
  }

  /** Reference splitting: the maximal separator-free runs of `s` from position `i`, in order. */
  function Words(s: String, i: nat): seq<String>
    requires i <= |s|
    decreases |s| - i
  {
    if i == |s| then []
    else if IsSep(s[i]) then Words(s, i + 1)
    else
      var j := WordEnd(s, i);
      [s[i..j]] + Words(s, j)
  }

  function Take<T>(xs: seq<T>, n: nat): (ys: seq<T>)
    ensures |ys| == if |xs| <= n then |xs| else n
    ensures ys <= xs
  {
    if |xs| <= n then xs else xs[..n]
  }

  /** The field for position `i`: the `i`-th token if there is one, otherwise the empty string. */
  function FieldOr(toks: seq<String>, i: nat): String {
    if i < |toks| then toks[i] else []
  }

  /** The four operand fields filled from `toks` in order, the rest left empty. */
  function Pad4(toks: seq<String>): seq<String> {
    [FieldOr(toks, 0), FieldOr(toks, 1), FieldOr(toks, 2), FieldOr(toks, 3)]
  }

  datatype Fields = Fields(labelName: String, opcode: String, arg0: String, arg1: String, arg2: String)
  {
    /** The four fields after the label, in order. */
    function Operands(): seq<String> {
      [opcode, arg0, arg1, arg2]
    }
  }

  datatype Parsed = LineTooLong | Parsed(fields: Fields)

  lemma {:induction false} WordsSkipGap(s: String, i: nat)
    requires i <= |s|
    ensures Words(s, i) == Words(s, GapEnd(s, i))
    decreases |s| - i
  {
    if i < |s| && IsSep(s[i]) {
      WordsSkipGap(s, i + 1);
    }
  }

  lemma TakeCons<T>(x: T, xs: seq<T>, n: nat)
    requires n > 0
    ensures Take([x] + xs, n) == [x] + Take(xs, n - 1)
  {
  }

  /** The scanning conversions of the tokenizer find exactly the first `n` words. */
  lemma {:induction false} ScanFieldsTakesWords(s: String, i: nat, n: nat)
    requires i <= |s|
    requires i == |s| || IsSep(s[i])
    ensures ScanFields(s, i, n) == Take(Words(s, i), n)
    decreases n
  {
    if n == 0 {
      assert Take(Words(s, i), n) == [];
    } else if i == |s| {
      assert Words(s, i) == [];
    } else {
      var j := GapEnd(s, i);
      WordsSkipGap(s, i);
      if j < |s| {
        var k := WordEnd(s, j);
        assert Words(s, j) == [s[j..k]] + Words(s, k);
        ScanFieldsTakesWords(s, k, n - 1);
        TakeCons(s[j..k], Words(s, k), n);
      }
    }
  }

  lemma {:induction false} ScanFieldsNoNul(s: String, i: nat, n: nat)
    requires i <= |s|
    requires NoNul(s)
    ensures forall k | 0 <= k < |ScanFields(s, i, n)| :: NoNul(ScanFields(s, i, n)[k])
    decreases n
  {
    if n > 0 {
      var j := GapEnd(s, i);
      if j > i {
        var k := WordEnd(s, j);
        if k > j {
          ScanFieldsNoNul(s, k, n - 1);
          assert NoNul(s[j..k]);
        }
      }
    }
  }

  /**
   * `readAndParse` applied to one buffer filled by `fgets`: "line too long"
   * unless the C string in the buffer holds a newline; otherwise the label and
   * the first four following words, with absent fields left empty.
   */
  function ParseLine(chunk: String): (r: Parsed)
    ensures r.LineTooLong? <==> '\n' !in CString(chunk)
    ensures r.Parsed? ==> |r.fields.labelName| < |CString(chunk)|
    ensures r.Parsed? ==> (|r.fields.labelName| > 0 <==> !IsSep(chunk[0]))
    ensures r.Parsed? ==>
      r.fields.labelName < chunk && NoSep(r.fields.labelName) && IsSep(chunk[|r.fields.labelName|])
    ensures r.Parsed? ==>
      r.fields.Operands() == Pad4(Take(Words(CString(chunk), |r.fields.labelName|), 4))
    ensures r.Parsed? ==> NoNul(r.fields.labelName)
    ensures r.Parsed? ==> forall k | 0 <= k < 4 :: NoSep(r.fields.Operands()[k]) && NoNul(r.fields.Operands()[k])
  {
    var s := CString(chunk);
    if '\n' !in s then LineTooLong
    else
      var e := WordEnd(s, 0);
      var toks := ScanFields(s, e, 4);
      ScanFieldsTakesWords(s, e, 4);
      ScanFieldsNoNul(s, e, 4);
      var fields := Fields(s[..e], FieldOr(toks, 0), FieldOr(toks, 1), FieldOr(toks, 2), FieldOr(toks, 3));
      assert fields.Operands() == Pad4(toks);
      Pad4Clean(toks);
      Parsed(fields)
  }

  /** Padding clean tokens with empty fields keeps every field clean. */
  lemma Pad4Clean(toks: seq<String>)
    requires forall k | 0 <= k < |toks| :: NoSep(toks[k]) && NoNul(toks[k])
    ensures forall k | 0 <= k < 4 :: NoSep(Pad4(toks)[k]) && NoNul(Pad4(toks)[k])
  {
    forall k | 0 <= k < 4
      ensures NoSep(Pad4(toks)[k]) && NoNul(Pad4(toks)[k])
    {
      assert Pad4(toks)[k] == FieldOr(toks, k);
    }
  }

  /** The text of a line written as `label tok tok ... \n`: one space before each token. */
  function Join(toks: seq<String>): String {
    if |toks| == 0 then [] else [' '] + toks[0] + Join(toks[1..])
  }

  lemma {:induction false} JoinChars(toks: seq<String>)
    requires forall i | 0 <= i < |toks| :: IsToken(toks[i])
    ensures NoNul(Join(toks))
    ensures '\n' !in Join(toks)
    decreases |toks|
  {
    if |toks| > 0 {
      JoinChars(toks[1..]);
      var t := toks[0];
      var j := Join(toks);
      assert j == [' '] + t + Join(toks[1..]);
      forall i | 0 <= i < |j|
        ensures j[i] != '\0' && j[i] != '\n'
      {
        if i == 0 {
        } else if i <= |t| {
          assert j[i] == t[i - 1];
          assert !IsSep(t[i - 1]);
        } else {
          assert j[i] == Join(toks[1..])[i - 1 - |t|];
        }
      }
    }
  }

  /** Scanning a joined line from the end of whatever precedes it finds exactly the joined tokens. */
  lemma {:induction false} WordsOfJoin(pre: String, toks: seq<String>)
    requires forall i | 0 <= i < |toks| :: IsToken(toks[i])
    ensures Words(pre + Join(toks) + "\n", |pre|) == toks
    decreases |toks|
  {
    var line := pre + Join(toks) + "\n";
    if |toks| == 0 {
      assert line == pre + "\n";
      assert IsSep(line[|pre|]);
      assert Words(line, |pre|) == Words(line, |pre| + 1);
    } else {
      var t := toks[0];
      var pre' := pre + [' '] + t;
      assert line == pre' + Join(toks[1..]) + "\n";
      assert line[|pre|] == ' ';
      assert Words(line, |pre|) == Words(line, |pre| + 1);
      forall k | |pre| + 1 <= k < |pre'|
        ensures !IsSep(line[k])
      {
        assert line[k] == t[k - |pre| - 1];
      }
      var next := (Join(toks[1..]) + "\n")[0];
      assert line[|pre'|] == next;
      assert next == ' ' || next == '\n';
      assert WordEnd(line, |pre| + 1) == |pre'|;
      assert line[|pre| + 1..|pre'|] == t;
      assert Words(line, |pre| + 1) == [t] + Words(line, |pre'|);
      WordsOfJoin(pre', toks[1..]);
    }
  }

  /**
   * Round trip: writing a label (possibly empty) and tokens on one line, each
   * token after a single space, parses back to the label and the first four
   * tokens; missing fields are empty and tokens past the fourth are dropped.
   */
  lemma {:induction false} ParseJoin(lab: String, toks: seq<String>)
    requires NoSep(lab) && NoNul(lab)
    requires forall i | 0 <= i < |toks| :: IsToken(toks[i])
    ensures ParseLine(lab + Join(toks) + "\n")
         == Parsed(Fields(lab, FieldOr(toks, 0), FieldOr(toks, 1), FieldOr(toks, 2), FieldOr(toks, 3)))
  {
    var line := lab + Join(toks) + "\n";
    JoinChars(toks);
    assert NoNul(line) by {
      forall i | 0 <= i < |line| ensures line[i] != '\0' {
        if i < |lab| {
          assert line[i] == lab[i];
        } else if i < |lab| + |Join(toks)| {
          assert line[i] == Join(toks)[i - |lab|];
        }
      }
    }
    assert StrLen(line, 0) == |line|;
    assert CString(line) == line;
    assert line[|line| - 1] == '\n';
    var next := (Join(toks) + "\n")[0];
    assert line[|lab|] == next;
    assert next == ' ' || next == '\n';
    forall k | 0 <= k < |lab| ensures !IsSep(line[k]) {
      assert line[k] == lab[k];
    }
    assert WordEnd(line, 0) == |lab|;
    assert line[..|lab|] == lab;
    WordsOfJoin(lab, toks);
    var r := ParseLine(line);
    assert Pad4(Take(toks, 4)) == Pad4(toks);
  }
}
