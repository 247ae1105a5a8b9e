/**
 * The text form of 454 SFF files read by cogent/parse/flowgram_parser.py. A file comes
 * as records, each a sequence of stripped lines that starts with a `>` label; the first
 * record is the common header. `key: value` lines fill dictionaries.
 */
module FlowgramParser {
  import opened Wrappers

  type Line = string
  type Record = seq<Line>
  type Dict = map<string, string>

  /** The exceptions the parser raises. */
  datatype ParseError = ValueError | IndexError | AssertionError | KeyError | StopIteration

  /** What `str.strip()` drops: space, tab, newline, vertical tab, form feed and carriage return. */
  const Whitespace: set<char> := {' ', '\t', '\n', '\U{000B}', '\U{000C}', '\r'}

  /** What `strip('>')` drops. */
  const LabelMark: set<char> := {'>'}

  /** `is_empty(line)`: the line is blank. */
  predicate IsEmpty(line: Line)
  {
    forall k :: 0 <= k < |line| ==> line[k] in Whitespace
  }

  /** Where the run of characters in `drop` that starts at `i` ends. */
  function SkipFrom(s: string, drop: set<char>, i: nat): (r: nat)
    requires i <= |s|
    ensures i <= r <= |s|
    ensures forall k :: i <= k < r ==> s[k] in drop
    ensures r < |s| ==> s[r] !in drop
    decreases |s| - i
  {
    if i < |s| && s[i] in drop then SkipFrom(s, drop, i + 1) else i
  }

  /** Where the run of characters in `drop` that ends at `j` starts, going no lower than `lo`. */
  function SkipBackTo(s: string, drop: set<char>, lo: nat, j: nat): (r: nat)
    requires lo <= j <= |s|
    ensures lo <= r <= j
    ensures forall k :: r <= k < j ==> s[k] in drop
    ensures r > lo ==> s[r - 1] !in drop
  {
    if j > lo && s[j - 1] in drop then SkipBackTo(s, drop, lo, j - 1) else j
  }

  /**
   * `s.strip(chars)`: the middle of `s` left once the characters in `drop` are taken off
   * both ends.
   */
  function Strip(s: string, drop: set<char>): string
  {
    var i := SkipFrom(s, drop, 0);
    s[i..SkipBackTo(s, drop, i, |s|)]
  }

  /**
   * What `strip` leaves: a slice `s[i..j]` that starts and ends with a kept character,
   * with only dropped characters before `i` and after `j`.
   */
  lemma StripShape(s: string, drop: set<char>) returns (i: nat, j: nat)
    ensures i <= j <= |s| && Strip(s, drop) == s[i..j]
    ensures forall k :: 0 <= k < i ==> s[k] in drop
    ensures forall k :: j <= k < |s| ==> s[k] in drop
    ensures Strip(s, drop) != [] ==> s[i] !in drop && s[j - 1] !in drop
  {
    i := SkipFrom(s, drop, 0);
    j := SkipBackTo(s, drop, i, |s|);
  }

  /** Stripping twice is stripping once. */
  lemma StripIdempotent(s: string, drop: set<char>)
    ensures Strip(Strip(s, drop), drop) == Strip(s, drop)
  {
    var i, j := StripShape(s, drop);
    var r := s[i..j];
    if r != [] {
      assert r[0] !in drop && r[|r| - 1] !in drop;
      assert SkipFrom(r, drop, 0) == 0;
      assert SkipBackTo(r, drop, 0, |r|) == |r|;
    }
  }

  /** The number of times `sep` occurs in `s`. */
  function Count(s: string, sep: char): nat
  {
    if s == [] then 0 else Count(s[..|s| - 1], sep) + if s[|s| - 1] == sep then 1 else 0
  }

  /** `sep.join(pieces)`. */
  function Join(pieces: seq<string>, sep: char): string
    requires |pieces| >= 1
  {
    if |pieces| == 1 then pieces[0] else Join(pieces[..|pieces| - 1], sep) + [sep] + pieces[|pieces| - 1]
  }

  /** `s.split(sep)`: the pieces between the separators. */
  function Split(s: string, sep: char): (pieces: seq<string>)
    ensures |pieces| >= 1
  {
    if s == [] then [[]]
    else
      var before := Split(s[..|s| - 1], sep);
      if s[|s| - 1] == sep then before + [[]]
      else before[..|before| - 1] + [before[|before| - 1] + [s[|s| - 1]]]
  }

  /**
   * There is one more piece than there are separators; no piece holds `sep`, and
   * joining the pieces with `sep` gives `s` back.
   */
  lemma SplitShape(s: string, sep: char)
    ensures |Split(s, sep)| == Count(s, sep) + 1
    ensures forall k :: 0 <= k < |Split(s, sep)| ==> sep !in Split(s, sep)[k]
    ensures Join(Split(s, sep), sep) == s
  {
    SplitCount(s, sep);
    SplitPieces(s, sep);
    SplitJoin(s, sep);
  }

  lemma {:induction false} SplitCount(s: string, sep: char)
    ensures |Split(s, sep)| == Count(s, sep) + 1
  {
    if s != [] {
      SplitCount(s[..|s| - 1], sep);
    }
  }

  lemma {:induction false} SplitPieces(s: string, sep: char)
    ensures forall k :: 0 <= k < |Split(s, sep)| ==> sep !in Split(s, sep)[k]
  {
    if s != [] {
      SplitPieces(s[..|s| - 1], sep);
    }
  }

  lemma {:induction false} SplitJoin(s: string, sep: char)
    ensures Join(Split(s, sep), sep) == s
  {
    if s != [] {
      var init := s[..|s| - 1];
      var c := s[|s| - 1];
      SplitJoin(init, sep);
      var before := Split(init, sep);
      assert s == init + [c];
      if c == sep {
        JoinEmptyPiece(before, sep);
      } else {
        JoinExtendLast(before, sep, c);
      }
    }
  }

  /** Joining one more, empty, piece appends a separator. */
  lemma JoinEmptyPiece(pieces: seq<string>, sep: char)
    requires |pieces| >= 1
    ensures Join(pieces + [[]], sep) == Join(pieces, sep) + [sep]
  {
    assert (pieces + [[]])[..|pieces|] == pieces;
  }

  /** Extending the last piece by `x` extends the joined string by `x`. */
  lemma JoinExtendLast(pieces: seq<string>, sep: char, x: char)
    requires |pieces| >= 1
    ensures Join(pieces[..|pieces| - 1] + [pieces[|pieces| - 1] + [x]], sep) == Join(pieces, sep) + [x]
  {
    var n := |pieces|;
    var longer := pieces[..n - 1] + [pieces[n - 1] + [x]];
    if n > 1 {
      assert longer[..n - 1] == pieces[..n - 1];
    }
  }

  /**
   * `key, value = line.strip().split(':')`, then `value.strip()`: the key is what comes
   * before the one `:` of the stripped line and the value what comes after it, stripped;
   * any other number of pieces makes unpacking raise ValueError.
   */
  function ParseLine(line: Line): (r: Result<(string, string), ParseError>)
    ensures r.Err? ==> r.error == ValueError
  {
    var pieces := Split(Strip(line, Whitespace), ':');
    if |pieces| != 2 then Err(ValueError) else Ok((pieces[0], Strip(pieces[1], Whitespace)))
  }

  /**
   * A line parses exactly when its stripped form holds one `:`. It is then its key, the
   * `:` and a raw value; neither part holds a `:`, and the value is the raw value
   * stripped.
   */
  lemma ParseLineParts(line: Line) returns (raw: string)
    ensures ParseLine(line).Ok? <==> Count(Strip(line, Whitespace), ':') == 1
    ensures ParseLine(line).Ok? ==> KeyOf(line) + [':'] + raw == Strip(line, Whitespace)
    ensures ParseLine(line).Ok? ==> ':' !in KeyOf(line) && ':' !in raw && ValueOf(line) == Strip(raw, Whitespace)
  {
    var pieces := Split(Strip(line, Whitespace), ':');
    SplitShape(Strip(line, Whitespace), ':');
    raw := if |pieces| == 2 then pieces[1] else [];
    if |pieces| == 2 {
      assert pieces[..1] == [pieces[0]];
      assert Join(pieces[..1], ':') == pieces[0];
    }
  }

  /** The key of a line that parses. */
  function KeyOf(line: Line): string
    requires ParseLine(line).Ok?
  {
    ParseLine(line).value.0
  }

  /** The value of a line that parses. */
  function ValueOf(line: Line): string
    requires ParseLine(line).Ok?
  {
    ParseLine(line).value.1
  }

  /** What parsing a line gives: its key and value, or the error unpacking raises. */
  type Entry = Result<(string, string), ParseError>

  /** Each line parsed. */
  function Entries(lines: seq<Line>): (es: seq<Entry>)
    ensures |es| == |lines|
  {
    seq(|lines|, i requires 0 <= i < |lines| => ParseLine(lines[i]))
  }

  /**
   * `for line in lines: key, value = ...; d[key] = value` on a dictionary that starts as
   * `d`, over the parsed lines: it stops at, and raises, the first error.
   */
  function Fill(d: Dict, es: seq<Entry>): (r: Result<Dict, ParseError>)
    ensures r.Ok? <==> forall i :: 0 <= i < |es| ==> es[i].Ok?
    ensures r.Err? ==> exists i :: 0 <= i < |es| && es[i] == Err(r.error)
    decreases |es|
  {
    if es == [] then Ok(d)
    else
      assert forall i :: 1 <= i < |es| ==> es[i] == es[1..][i - 1];
      match es[0]
      case Err(e) => Err(e)
      case Ok(kv) => Fill(d[kv.0 := kv.1], es[1..])
  }

  /** Filling a dictionary from lines: it fails, with ValueError, exactly when some line does not parse. */
  function FillLines(d: Dict, lines: seq<Line>): (r: Result<Dict, ParseError>)
    ensures r.Ok? <==> forall i :: 0 <= i < |lines| ==> ParseLine(lines[i]).Ok?
    ensures r.Err? ==> r.error == ValueError
  {
    var es := Entries(lines);
    assert forall i :: 0 <= i < |lines| ==> es[i] == ParseLine(lines[i]);
    Fill(d, es)
  }

  /** Filling with one more entry: the dictionary so far, updated with that entry. */
  lemma {:induction false} FillSnoc(d: Dict, es: seq<Entry>, e: Entry)
    requires Fill(d, es).Ok?
    ensures Fill(d, es + [e]) == if e.Ok? then Ok(Fill(d, es).value[e.value.0 := e.value.1]) else Err(e.error)
    decreases |es|
  {
    if es != [] {
      assert (es + [e])[1..] == es[1..] + [e];
      var kv := es[0].value;
      FillSnoc(d[kv.0 := kv.1], es[1..], e);
    }
  }

  /**
   * What a filled dictionary holds: the keys of `d` and of the entries; a key takes the
   * value of the last entry that has it, and a key no entry has keeps its value from `d`.
   */
  lemma {:induction false} FillLookup(d: Dict, es: seq<Entry>, key: string)
    requires Fill(d, es).Ok?
    ensures key in Fill(d, es).value <==> key in d || exists i :: 0 <= i < |es| && es[i].value.0 == key
    ensures forall i :: 0 <= i < |es| && es[i].value.0 == key && (forall j :: i < j < |es| ==> es[j].value.0 != key) ==>
      Fill(d, es).value[key] == es[i].value.1
    ensures key in d && (forall i :: 0 <= i < |es| ==> es[i].value.0 != key) ==> Fill(d, es).value[key] == d[key]
    decreases |es|
  {
    if es != [] {
      var rest := es[1..];
      var d' := d[es[0].value.0 := es[0].value.1];
      assert forall i :: 1 <= i < |es| ==> es[i] == rest[i - 1];
      FillLookup(d', rest, key);
      assert Fill(d, es) == Fill(d', rest);
      forall i | 0 <= i < |es| && es[i].value.0 == key && (forall j :: i < j < |es| ==> es[j].value.0 != key)
        ensures Fill(d, es).value[key] == es[i].value.1
      {
        if i == 0 {
          assert forall j :: 0 <= j < |rest| ==> rest[j].value.0 != key by {
            forall j | 0 <= j < |rest| ensures rest[j].value.0 != key {
              assert rest[j] == es[j + 1];
            }
          }
        } else {
          assert rest[i - 1] == es[i];
          assert forall j :: i - 1 < j < |rest| ==> rest[j].value.0 != key by {
            forall j | i - 1 < j < |rest| ensures rest[j].value.0 != key {
              assert rest[j] == es[j + 1];
            }
          }
        }
      }
      if exists i :: 0 <= i < |rest| && rest[i].value.0 == key {
        var i :| 0 <= i < |rest| && rest[i].value.0 == key;
        assert es[i + 1] == rest[i];
      }
    }
  }

  /** Filling one more entry after the first `j`: the dictionary grows by it, or its error is what filling them all raises. */
  lemma FillStep(d0: Dict, es: seq<Entry>, j: nat, d: Dict)
    requires j < |es| && Fill(d0, es[..j]) == Ok(d)
    ensures es[j].Err? ==> Fill(d0, es) == Err(es[j].error)
    ensures es[j].Ok? ==> Fill(d0, es[..j + 1]) == Ok(d[es[j].value.0 := es[j].value.1])
  {
    FillSnoc(d0, es[..j], es[j]);
    TakeSnoc(es, j);
    if es[j].Err? {
      FillPrefixError(d0, es, j + 1);
    }
  }

  /** A prefix that fails to fill makes the whole fail with the same error. */
  lemma {:induction false} FillPrefixError(d: Dict, es: seq<Entry>, n: nat)
    requires n <= |es| && Fill(d, es[..n]).Err?
    ensures Fill(d, es) == Fill(d, es[..n])
    decreases n
  {
    assert n > 0;
    if es[0].Ok? {
      var kv := es[0].value;
      assert es[..n][0] == es[0];
      assert es[..n][1..] == es[1..][..n - 1];
      FillPrefixError(d[kv.0 := kv.1], es[1..], n - 1);
    } else {
      assert es[..n][0] == es[0];
    }
  }

  /** The lines before the first blank one. */
  function UpToBlank(lines: seq<Line>): (block: seq<Line>)
    ensures |block| <= |lines| && block == lines[..|block|]
    ensures forall k :: 0 <= k < |block| ==> !IsEmpty(block[k])
    ensures |block| == |lines| || IsEmpty(lines[|block|])
  {
    if lines == [] || IsEmpty(lines[0]) then []
    else
      var block := [lines[0]] + UpToBlank(lines[1..]);
      assert forall k :: 1 <= k < |block| ==> block[k] == lines[1..][k - 1];
      block
  }

  /** `lines[1::]`. */
  function AfterFirst<T>(lines: seq<T>): seq<T>
  {
    if lines == [] then [] else lines[1..]
  }

  /** `getHeaderInfo(lines)`: the dictionary of the header lines after the label, up to the first blank line. */
  function HeaderInfo(lines: seq<Line>): Result<Dict, ParseError>
  {
    FillLines(map[], UpToBlank(AfterFirst(lines)))
  }

  /** The header stops at its first blank line: nothing after it is read. */
  lemma HeaderIgnoresRest(lines: seq<Line>, rest: seq<Line>)
    requires |lines| >= 1 && |UpToBlank(AfterFirst(lines))| + 1 < |lines|
    ensures HeaderInfo(lines[..|UpToBlank(AfterFirst(lines))| + 2] + rest) == HeaderInfo(lines)
  {
    var block := UpToBlank(AfterFirst(lines));
    var cut := lines[..|block| + 2] + rest;
    assert AfterFirst(cut) == block + [lines[|block| + 1]] + rest;
    UpToBlankPrefix(block, lines[|block| + 1], rest);
  }

  lemma {:induction false} UpToBlankPrefix(block: seq<Line>, blank: Line, rest: seq<Line>)
    requires IsEmpty(blank) && forall k :: 0 <= k < |block| ==> !IsEmpty(block[k])
    ensures UpToBlank(block + [blank] + rest) == block
  {
    if block != [] {
      assert (block + [blank] + rest)[1..] == block[1..] + [blank] + rest;
      UpToBlankPrefix(block[1..], blank, rest);
    }
  }

  /** `getHeaderInfo(lines)`, a loop over `lines[1::]` that breaks at the first blank line. */
  method GetHeaderInfo(lines: seq<Line>) returns (r: Result<Dict, ParseError>)
    ensures r == HeaderInfo(lines)
  {
    var rest := AfterFirst(lines);
    ghost var block := UpToBlank(rest);
    ghost var es := Entries(block);
    var d: Dict := map[];
    var j := 0;
    while j < |rest|
      invariant 0 <= j <= |block| <= |rest| && block == rest[..|block|]
      invariant Fill(map[], es[..j]) == Ok(d)
    {
      if IsEmpty(rest[j]) {
        break;
      }
      assert j < |block|;
      assert es[j] == ParseLine(rest[j]);
      var kv := ParseLine(rest[j]);
      FillStep(map[], es, j, d);
      if kv.Err? {
        return Err(kv.error);
      }
      d := d[kv.value.0 := kv.value.1];
      j := j + 1;
    }
    assert j == |block|;
    assert es[..j] == es;
    r := Ok(d);
  }

  /**
   * `splitSummary(summary)`: `Name` is the label line with `>` stripped from both ends,
   * then every later line adds its entry; an empty summary raises IndexError.
   */
  function SummaryDict(summary: Record): Result<Dict, ParseError>
  {
    if summary == [] then Err(IndexError)
    else FillLines(map["Name" := Strip(summary[0], LabelMark)], summary[1..])
  }

  method SplitSummary(summary: Record) returns (r: Result<Dict, ParseError>)
    ensures r == SummaryDict(summary)
  {
    if summary == [] {
      return Err(IndexError);
    }
    ghost var d0: Dict := map["Name" := Strip(summary[0], LabelMark)];
    var d: Dict := map["Name" := Strip(summary[0], LabelMark)];
    var rest := summary[1..];
    ghost var es := Entries(rest);
    var j := 0;
    while j < |rest|
      invariant 0 <= j <= |rest|
      invariant Fill(d0, es[..j]) == Ok(d)
    {
      assert es[j] == ParseLine(rest[j]);
      var kv := ParseLine(rest[j]);
      FillStep(d0, es, j, d);
      if kv.Err? {
        return Err(kv.error);
      }
      d := d[kv.value.0 := kv.value.1];
      j := j + 1;
    }
    assert es[..j] == es;
    r := Ok(d);
  }

  /**
   * A parsed summary has a `Name`: the stripped label, unless a later line sets it;
   * every other key is the key of some line.
   */
  lemma SummaryEntries(summary: Record, key: string)
    requires SummaryDict(summary).Ok?
    ensures "Name" in SummaryDict(summary).value
    ensures (forall i :: 1 <= i < |summary| ==> KeyOf(summary[i]) != "Name") ==>
      SummaryDict(summary).value["Name"] == Strip(summary[0], LabelMark)
    ensures key != "Name" ==> (key in SummaryDict(summary).value <==> exists i :: 1 <= i < |summary| && KeyOf(summary[i]) == key)
  {
    SummaryName(summary);
    SummaryKey(summary, key);
  }

  lemma SummaryName(summary: Record)
    requires SummaryDict(summary).Ok?
    ensures "Name" in SummaryDict(summary).value
    ensures (forall i :: 1 <= i < |summary| ==> KeyOf(summary[i]) != "Name") ==>
      SummaryDict(summary).value["Name"] == Strip(summary[0], LabelMark)
  {
    var d := map["Name" := Strip(summary[0], LabelMark)];
    var es := Entries(summary[1..]);
    assert forall i :: 0 <= i < |es| ==> es[i] == ParseLine(summary[i + 1]);
    FillLookup(d, es, "Name");
    if forall i :: 1 <= i < |summary| ==> KeyOf(summary[i]) != "Name" {
      assert forall i :: 0 <= i < |es| ==> es[i].value.0 != "Name" by {
        forall i | 0 <= i < |es| ensures es[i].value.0 != "Name" {
          assert es[i] == ParseLine(summary[i + 1]) && es[i].Ok?;
          assert 1 <= i + 1 < |summary|;
          assert KeyOf(summary[i + 1]) != "Name";
        }
      }
    }
  }

  lemma SummaryKey(summary: Record, key: string)
    requires SummaryDict(summary).Ok?
    ensures key != "Name" ==> (key in SummaryDict(summary).value <==> exists i :: 1 <= i < |summary| && KeyOf(summary[i]) == key)
  {
    var d := map["Name" := Strip(summary[0], LabelMark)];
    var es := Entries(summary[1..]);
    assert forall i :: 0 <= i < |es| ==> es[i] == ParseLine(summary[i + 1]);
    FillLookup(d, es, key);
    if exists j :: 0 <= j < |es| && es[j].value.0 == key {
      var j :| 0 <= j < |es| && es[j].value.0 == key;
      assert KeyOf(summary[j + 1]) == key;
    }
    if exists i :: 1 <= i < |summary| && KeyOf(summary[i]) == key {
      var i :| 1 <= i < |summary| && KeyOf(summary[i]) == key;
      assert es[i - 1] == ParseLine(summary[i]);
      assert es[i - 1].value.0 == key;
    }
  }

  /** The indices below `n` that `wanted` accepts, in increasing order. */
  function Selection(n: nat, wanted: nat -> bool): (ix: seq<nat>)
    ensures forall k :: 0 <= k < |ix| ==> ix[k] < n
    ensures |ix| <= n
  {
    if n == 0 then [] else Selection(n - 1, wanted) + if wanted(n - 1) then [n - 1] else []
  }

  /** The selection holds exactly the wanted indices below `n`, each once and in increasing order. */
  lemma {:induction false} SelectionShape(n: nat, wanted: nat -> bool)
    ensures forall k :: 0 <= k < |Selection(n, wanted)| ==> wanted(Selection(n, wanted)[k])
    ensures forall k, k' :: 0 <= k < k' < |Selection(n, wanted)| ==> Selection(n, wanted)[k] < Selection(n, wanted)[k']
    ensures forall i :: 0 <= i < n ==> (i in Selection(n, wanted) <==> wanted(i))
  {
    if n > 0 {
      SelectionShape(n - 1, wanted);
    }
  }

  /** Gathering at one more index gathers one more record. */
  lemma GatherSnoc(records: seq<Record>, ix: seq<nat>, extra: seq<nat>)
    requires forall k :: 0 <= k < |ix| ==> ix[k] < |records|
    requires |extra| <= 1 && forall k :: 0 <= k < |extra| ==> extra[k] < |records|
    ensures Gather(records, ix + extra) == Gather(records, ix) + Gather(records, extra)
  {
    assert forall k :: 0 <= k < |ix + extra| ==> (ix + extra)[k] < |records|;
    assert forall k :: 0 <= k < |ix| ==> Gather(records, ix + extra)[k] == records[ix[k]];
  }

  /** The selection below `m` is how the selection below a larger `n` starts. */
  lemma {:induction false} SelectionPrefix(m: nat, n: nat, wanted: nat -> bool)
    requires m <= n
    ensures |Selection(m, wanted)| <= |Selection(n, wanted)|
    ensures Selection(m, wanted) == Selection(n, wanted)[..|Selection(m, wanted)|]
    decreases n
  {
    if m < n {
      SelectionPrefix(m, n - 1, wanted);
    }
  }

  /** The `number_list` test on record `i`: `i - 1 in number_list` (record 0 is the header). */
  function Numbered(numbers: seq<int>): nat -> bool
  {
    (i: nat) => i - 1 in numbers
  }

  /** The `name_list` test on record `i`: its label, `>` stripped, is in `name_list`. */
  function Named(records: seq<Record>, names: seq<string>): nat -> bool
  {
    (i: nat) => i < |records| && |records[i]| > 0 && Strip(records[i][0], LabelMark) in names
  }

  /** `getAllSummaries(lines)`: every record but the header. */
  function GetAllSummaries(records: seq<Record>): (r: seq<Record>)
    ensures |r| == if records == [] then 0 else |records| - 1
    ensures forall k :: 0 <= k < |r| ==> r[k] == records[k + 1]
  {
    AfterFirst(records)
  }

  /**
   * `getSummaries(handle, number_list, name_list, all_sums)`, collecting what the
   * generator yields. An empty `number_list` or `name_list` stands for `None` too, as
   * both are false in Python. With `number_list`, the records `i` with `i - 1` in it, in
   * file order, stopping once as many as the list is long were yielded; with
   * `name_list`, the records whose label is in it, and IndexError on an empty record;
   * with `all_sums`, every record but the header. Asserts reject a second mode next to
   * `number_list`, and `all_sums` next to `name_list`; no mode at all raises ValueError.
   */
  method GetSummaries(records: seq<Record>, numbers: seq<int>, names: seq<string>, allSums: bool)
    returns (r: Result<seq<Record>, ParseError>)
    ensures |numbers| > 0 && (|names| > 0 || allSums) ==> r == Err(AssertionError)
    ensures |numbers| > 0 && !(|names| > 0 || allSums) ==>
      r == Ok(Take(Gather(records, Selection(|records|, Numbered(numbers))), |numbers|))
    ensures |numbers| == 0 && |names| > 0 && allSums ==> r == Err(AssertionError)
    ensures |numbers| == 0 && |names| > 0 && !allSums ==>
      if forall i :: 0 <= i < |records| ==> |records[i]| > 0
      then r == Ok(Gather(records, Selection(|records|, Named(records, names))))
      else r == Err(IndexError)
    ensures |numbers| == 0 && |names| == 0 && allSums ==> r == Ok(GetAllSummaries(records))
    ensures |numbers| == 0 && |names| == 0 && !allSums ==> r == Err(ValueError)
  {
    if |numbers| > 0 {
      if |names| > 0 || allSums {
        return Err(AssertionError);
      }
      var out := SummariesByNumber(records, numbers);
      return Ok(out);
    } else if |names| > 0 {
      if allSums {
        return Err(AssertionError);
      }
      r := SummariesByName(records, names);
    } else if allSums {
      var out := SummariesAfterHeader(records);
      return Ok(out);
    } else {
      return Err(ValueError);
    }
  }

  /** The `number_list` loop of `getSummaries`: counts down from the list's length and stops at zero. */
  method SummariesByNumber(records: seq<Record>, numbers: seq<int>) returns (out: seq<Record>)
    requires |numbers| > 0
    ensures out == Take(Gather(records, Selection(|records|, Numbered(numbers))), |numbers|)
  {
    var num := |numbers|;
    out := [];
    var i := 0;
    while i < |records|
      invariant 0 <= i <= |records|
      invariant out == Gather(records, Selection(i, Numbered(numbers)))
      invariant num == |numbers| - |out| > 0
    {
      NumberedStep(records, numbers, i);
      if i - 1 in numbers {
        out := out + [records[i]];
        num := num - 1;
      }
      if num == 0 {
        NumberedStop(records, numbers, i + 1);
        return;
      }
      i := i + 1;
    }
    assert out == Take(out, |numbers|);
  }

  /** The `name_list` loop of `getSummaries`: reading the label of an empty record raises IndexError. */
  method SummariesByName(records: seq<Record>, names: seq<string>) returns (r: Result<seq<Record>, ParseError>)
    ensures if forall i :: 0 <= i < |records| ==> |records[i]| > 0
            then r == Ok(Gather(records, Selection(|records|, Named(records, names))))
            else r == Err(IndexError)
  {
    var out: seq<Record> := [];
    var i := 0;
    while i < |records|
      invariant 0 <= i <= |records|
      invariant forall m :: 0 <= m < i ==> |records[m]| > 0
      invariant out == Gather(records, Selection(i, Named(records, names)))
    {
      if records[i] == [] {
        return Err(IndexError);
      }
      if Strip(records[i][0], LabelMark) in names {
        out := out + [records[i]];
      }
      NamedStep(records, names, i);
      i := i + 1;
    }
    return Ok(out);
  }

  /** One more record considered by the `name_list` loop. */
  lemma NamedStep(records: seq<Record>, names: seq<string>, i: nat)
    requires i < |records| && |records[i]| > 0
    ensures Gather(records, Selection(i + 1, Named(records, names))) ==
      Gather(records, Selection(i, Named(records, names))) + if Strip(records[i][0], LabelMark) in names then [records[i]] else []
  {
    GatherSnoc(records, Selection(i, Named(records, names)), if Strip(records[i][0], LabelMark) in names then [i] else []);
  }

  /** One more record considered by the `number_list` loop. */
  lemma NumberedStep(records: seq<Record>, numbers: seq<int>, i: nat)
    requires i < |records|
    ensures Gather(records, Selection(i + 1, Numbered(numbers))) ==
      Gather(records, Selection(i, Numbered(numbers))) + if i - 1 in numbers then [records[i]] else []
  {
    GatherSnoc(records, Selection(i, Numbered(numbers)), if i - 1 in numbers then [i] else []);
  }

  /** The `all_sums` loop of `getSummaries`: a flag skips the header record. */
  method SummariesAfterHeader(records: seq<Record>) returns (out: seq<Record>)
    ensures out == GetAllSummaries(records)
  {
    var header := true;
    out := [];
    var i := 0;
    while i < |records|
      invariant 0 <= i <= |records|
      invariant header <==> i == 0
      invariant out == AfterFirst(records[..i])
    {
      if header {
        header := false;
      } else {
        assert records[1..i + 1] == records[1..i] + [records[i]];
        out := out + [records[i]];
      }
      i := i + 1;
    }
    assert records[..i] == records;
  }

  /**
   * With `number_list` alone, at most as many records as the list is long are yielded,
   * and record `i` is yielded exactly when `i - 1` is in the list, as long as fewer than
   * that many such records come before it.
   */
  lemma NumberedSummaries(records: seq<Record>, numbers: seq<int>, i: nat)
    requires i < |records|
    ensures |Take(Gather(records, Selection(|records|, Numbered(numbers))), |numbers|)| <= |numbers|
    ensures (i - 1 in numbers && |Selection(i, Numbered(numbers))| < |numbers|) ==>
      records[i] in Take(Gather(records, Selection(|records|, Numbered(numbers))), |numbers|)
  {
    var all := Selection(|records|, Numbered(numbers));
    if i - 1 in numbers && |Selection(i, Numbered(numbers))| < |numbers| {
      SelectionPrefix(i + 1, |records|, Numbered(numbers));
      var before := Selection(i, Numbered(numbers));
      assert Selection(i + 1, Numbered(numbers)) == before + [i];
      assert all[|before|] == i;
      assert Take(Gather(records, all), |numbers|)[|before|] == records[i];
    }
  }

  /** Once the first `n` records hold as many listed ones as the list is long, those are all that is yielded. */
  lemma NumberedStop(records: seq<Record>, numbers: seq<int>, n: nat)
    requires n <= |records| && |Selection(n, Numbered(numbers))| == |numbers|
    ensures Gather(records, Selection(n, Numbered(numbers))) == Take(Gather(records, Selection(|records|, Numbered(numbers))), |numbers|)
  {
    SelectionPrefix(n, |records|, Numbered(numbers));
    var part := Gather(records, Selection(n, Numbered(numbers)));
    var whole := Take(Gather(records, Selection(|records|, Numbered(numbers))), |numbers|);
    assert forall k :: 0 <= k < |part| ==> part[k] == whole[k];
  }

  /** A flowgram of `_sffParser`: the arguments it passes to the `Flowgram` constructor. */
  datatype Flowgram = Flowgram(flowgram: string, name: string, keySeq: string, flowOrder: string, headerInfo: Dict)

  /**
   * One record of `_sffParser(handle, header)`: its summary dictionary without
   * `Flowgram`, whose value is the flowgram itself, with the `Key Sequence` and
   * `Flow Chars` of the header. A missing key raises KeyError.
   */
  function ParseFlowgram(header: Dict, summary: Record): (r: Result<Flowgram, ParseError>)
    ensures r.Ok? <==> (SummaryDict(summary).Ok? && "Flowgram" in SummaryDict(summary).value
                        && "Key Sequence" in header && "Flow Chars" in header)
    ensures r.Ok? ==> (r.value.headerInfo == SummaryDict(summary).value - {"Flowgram"}
                       && r.value.flowgram == SummaryDict(summary).value["Flowgram"]
                       && "Name" in SummaryDict(summary).value && r.value.name == SummaryDict(summary).value["Name"])
  {
    match SummaryDict(summary)
    case Err(e) => Err(e)
    case Ok(t) =>
      SummaryEntries(summary, "Name");
      if "Flowgram" !in t then Err(KeyError)
      else
        var info := t - {"Flowgram"};
        if "Name" !in info || "Key Sequence" !in header || "Flow Chars" !in header then Err(KeyError)
        else Ok(Flowgram(t["Flowgram"], info["Name"], header["Key Sequence"], header["Flow Chars"], info))
  }

  /**
   * `LazySFFParser(handle)`, run to the end: the header dictionary of the first record
   * (StopIteration when there is none) and the flowgrams of the others.
   */
  function LazySffParser(records: seq<Record>): (r: Result<(Dict, seq<Flowgram>), ParseError>)
    ensures r.Ok? ==> |r.value.1| == |records| - 1
  {
    if records == [] then Err(StopIteration)
    else
      match HeaderInfo(records[0])
      case Err(e) => Err(e)
      case Ok(header) =>
        match Collect(FlowSteps(header, records))
        case Err(e) => Err(e)
        case Ok(flows) => Ok((header, flows))
  }

  /** What the lazy parser makes of each record after the header. */
  function FlowSteps(header: Dict, records: seq<Record>): (steps: seq<Result<Flowgram, ParseError>>)
    requires records != []
    ensures |steps| == |records| - 1
    ensures forall k :: 0 <= k < |steps| ==> steps[k] == ParseFlowgram(header, records[k + 1])
  {
    seq(|records| - 1, k requires 0 <= k < |records| - 1 => ParseFlowgram(header, records[k + 1]))
  }

  /** Past a good header, the lazy parser fails exactly as its flowgram steps do. */
  lemma LazySffSteps(records: seq<Record>, header: Dict)
    requires records != [] && HeaderInfo(records[0]) == Ok(header)
    ensures LazySffParser(records).Ok? <==> Collect(FlowSteps(header, records)).Ok?
    ensures LazySffParser(records).Err? ==> LazySffParser(records).error == Collect(FlowSteps(header, records)).error
  {
  }

  /**
   * `count_sff(sff_fh)`: counts the flowgrams after the header, failing as the lazy
   * parser does on the first record it cannot parse.
   */
  method CountSff(records: seq<Record>) returns (r: Result<nat, ParseError>)
    ensures r.Ok? <==> LazySffParser(records).Ok?
    ensures r.Ok? ==> r.value == |records| - 1
    ensures r.Err? ==> r.error == LazySffParser(records).error
  {
    if records == [] {
      return Err(StopIteration);
    }
    var header := GetHeaderInfo(records[0]);
    if header.Err? {
      return Err(header.error);
    }
    ghost var steps := FlowSteps(header.value, records);
    LazySffSteps(records, header.value);
    var i := 0;
    while i < |records| - 1
      invariant 0 <= i <= |records| - 1
      invariant forall m :: 0 <= m < i ==> steps[m].Ok?
    {
      var f := ParseFlowgram(header.value, records[i + 1]);
      assert steps[i] == f;
      if f.Err? {
        CollectFirstError(steps, i);
        return Err(f.error);
      }
      OkPrefixStep(steps, i);
      i := i + 1;
    }
    r := Ok(i);
  }

  /** `prefix` followed by what a later part of a generator yields, or that part's error. */
  function Prepend<T>(prefix: seq<T>, r: Result<seq<T>, ParseError>): Result<seq<T>, ParseError>
  {
    if r.Ok? then Ok(prefix + r.value) else r
  }

  /**
   * The selection loop of `getRandomFlowsFromSFF` from position `j` of the file, with
   * `i` sample indices used so far: it walks `zip(range(size), flowgrams)`, yields the
   * flowgram at `idxs[i]` and moves to the next index, and stops once `num` were
   * yielded; reading past the end of `idxs` raises IndexError.
   */
  function SampleFrom<T>(flows: seq<T>, size: nat, num: nat, idxs: seq<nat>, j: nat, i: nat): Result<seq<T>, ParseError>
    decreases size - j
  {
    if j >= size || j >= |flows| then Ok([])
    else if i >= |idxs| then Err(IndexError)
    else if idxs[i] == j then
      if i + 1 >= num then Ok([flows[j]]) else Prepend([flows[j]], SampleFrom(flows, size, num, idxs, j + 1, i + 1))
    else SampleFrom(flows, size, num, idxs, j + 1, i)
  }

  /** The loop of `getRandomFlowsFromSFF` on `num` sorted sample indices, after `size` is raised to at least `num`. */
  function SampledFlows<T>(flows: seq<T>, size: nat, num: nat, idxs: seq<nat>): Result<seq<T>, ParseError>
  {
    SampleFrom(flows, if size < num then num else size, num, idxs, 0, 0)
  }

  /**
   * `getRandomFlowsFromSFF(filename, num=100, size)` on the file's flowgrams, with the
   * sorted sample of `random.sample` given as `idxs`.
   */
  method RandomFlows<T>(flows: seq<T>, size: nat, idxs: seq<nat>, num: nat := 100) returns (r: Result<seq<T>, ParseError>)
    ensures r == SampledFlows(flows, size, num, idxs)
  {
    var n := if size < num then num else size;
    var out: seq<T> := [];
    assert Prepend(out, SampleFrom(flows, n, num, idxs, 0, 0)) == SampleFrom(flows, n, num, idxs, 0, 0) by {
      if SampleFrom(flows, n, num, idxs, 0, 0).Ok? {
        assert [] + SampleFrom(flows, n, num, idxs, 0, 0).value == SampleFrom(flows, n, num, idxs, 0, 0).value;
      }
    }
    var i := 0;
    var j := 0;
    while j < n && j < |flows|
      invariant j <= |flows|
      invariant SampledFlows(flows, size, num, idxs) == Prepend(out, SampleFrom(flows, n, num, idxs, j, i))
      decreases n - j
    {
      if i >= |idxs| {
        return Err(IndexError);
      }
      if idxs[i] == j {
        ghost var before := out;
        i := i + 1;
        out := out + [flows[j]];
        if i >= num {
          return Ok(out);
        }
        PrependAssoc(before, [flows[j]], SampleFrom(flows, n, num, idxs, j + 1, i));
      }
      j := j + 1;
    }
    assert out + [] == out;
    r := Ok(out);
  }

  lemma PrependAssoc<T>(a: seq<T>, b: seq<T>, r: Result<seq<T>, ParseError>)
    ensures Prepend(a, Prepend(b, r)) == Prepend(a + b, r)
  {
    if r.Ok? {
      assert a + (b + r.value) == (a + b) + r.value;
    }
  }

  /** The flowgrams at the indices `ks` that lie in the file, in the order of `ks`. */
  function Kept<T>(flows: seq<T>, ks: seq<nat>): (r: seq<T>)
    ensures |r| <= |ks|
  {
    if ks == [] then [] else (if ks[0] < |flows| then [flows[ks[0]]] else []) + Kept(flows, ks[1..])
  }

  predicate Increasing(idxs: seq<nat>)
  {
    forall a, b :: 0 <= a < b < |idxs| ==> idxs[a] < idxs[b]
  }

  lemma {:induction false} KeptPastEnd<T>(flows: seq<T>, ks: seq<nat>)
    requires forall k :: 0 <= k < |ks| ==> ks[k] >= |flows|
    ensures Kept(flows, ks) == []
  {
    if ks != [] {
      KeptPastEnd(flows, ks[1..]);
    }
  }

  lemma {:induction false} SampleFromCorrect<T>(flows: seq<T>, size: nat, num: nat, idxs: seq<nat>, j: nat, i: nat)
    requires |idxs| == num && Increasing(idxs) && forall k :: 0 <= k < num ==> idxs[k] < size
    requires i < num && forall k :: i <= k < num ==> idxs[k] >= j
    ensures SampleFrom(flows, size, num, idxs, j, i) == Ok(Kept(flows, idxs[i..]))
    decreases size - j
  {
    if j >= |flows| {
      KeptPastEnd(flows, idxs[i..]);
    } else if idxs[i] == j {
      assert idxs[i..][1..] == idxs[i + 1..];
      if i + 1 < num {
        SampleFromCorrect(flows, size, num, idxs, j + 1, i + 1);
      } else {
        var ks := idxs[i..];
        assert ks[0] == j && ks[1..] == [];
        assert Kept(flows, ks) == [flows[j]] + Kept(flows, ks[1..]);
        assert Kept(flows, ks) == [flows[j]];
        assert SampleFrom(flows, size, num, idxs, j, i) == Ok([flows[j]]);
      }
    } else {
      assert j < idxs[i] < size;
      assert SampleFrom(flows, size, num, idxs, j, i) == SampleFrom(flows, size, num, idxs, j + 1, i);
      assert forall k :: i <= k < num ==> idxs[k] >= j + 1;
      SampleFromCorrect(flows, size, num, idxs, j + 1, i);
    }
  }

  /**
   * Given `num >= 1` distinct indices below `size`, sorted as `getRandomFlowsFromSFF`
   * sorts its sample, the loop yields, in file order, exactly the flowgrams at those
   * indices that the file has, so at most `num` of them.
   */
  lemma SampledFlowsCorrect<T>(flows: seq<T>, size: nat, num: nat, idxs: seq<nat>)
    requires num >= 1 && |idxs| == num && Increasing(idxs)
    requires forall k :: 0 <= k < num ==> idxs[k] < if size < num then num else size
    ensures SampledFlows(flows, size, num, idxs) == Ok(Kept(flows, idxs))
    ensures |Kept(flows, idxs)| <= num
  {
    SampleFromCorrect(flows, if size < num then num else size, num, idxs, 0, 0);
    assert idxs[0..] == idxs;
  }

  /** With `num == 0` the sample is empty, and the loop raises IndexError as soon as it reads a flowgram. */
  lemma SampledFlowsNone<T>(flows: seq<T>, size: nat)
    ensures SampledFlows(flows, size, 0, []) == if size > 0 && |flows| > 0 then Err(IndexError) else Ok([])
  {
  }
}
