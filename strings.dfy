/** The printable-string scanner (extract_strings_from_bytes): the runs of
    printable ASCII bytes, 0x20 (space) to 0x7E (tilde), that are at least a
    minimum length, found left to right the way re.findall finds the matches
    of [ -~]{n,}, and decoded to text. */
module Strings {
  import opened Common

  /** A byte of the character class [ -~]. */
  predicate Printable(b: byte)
  {
    0x20 <= b <= 0x7E
  }

  /** Where the run of printable bytes starting at i ends: the greedy extent of
      [ -~]* at position i. */
  function RunEnd(data: seq<byte>, i: nat): (e: nat)
    requires i <= |data|
    ensures i <= e <= |data|
    ensures forall k :: i <= k < e ==> Printable(data[k])
    ensures e == |data| || !Printable(data[e])
    decreases |data| - i
  {
    if i == |data| || !Printable(data[i]) then i else RunEnd(data, i + 1)
  }

  /** data[s..e] is a maximal non-empty run of printable bytes: every byte in it
      is printable and the bytes just outside it are not (or are off the end). */
  predicate IsMaximalRun(data: seq<byte>, s: nat, e: nat)
  {
    s < e <= |data|
    && (forall k :: s <= k < e ==> Printable(data[k]))
    && (s == 0 || !Printable(data[s - 1]))
    && (e == |data| || !Printable(data[e]))
  }

  /** The matches re.findall reports from position i on, as (start, end) pairs.
      At each position the greedy run is taken if it is long enough; the search
      then resumes where the match ended, or one further on after an empty match
      (which only a minimum length of 0 allows) or a failed attempt. */
  function Matches(data: seq<byte>, minLength: nat, i: nat): (ms: seq<(nat, nat)>)
    ensures forall m :: m in ms ==>
      i <= m.0 <= m.1 <= |data| && m.1 - m.0 >= minLength
      && forall k :: m.0 <= k < m.1 ==> Printable(data[k])
    decreases |data| + 1 - i
  {
    if i > |data| then []
    else
      var e := RunEnd(data, i);
      if e - i >= minLength then [(i, e)] + Matches(data, minLength, if e > i then e else i + 1)
      else Matches(data, minLength, i + 1)
  }

  /** Where the scan may be: at a run boundary, past the end, or inside a run
      too short to match from here. */
  predicate ScanPosition(data: seq<byte>, minLength: nat, i: nat)
  {
    i == 0 || i > |data| || !Printable(data[i - 1]) || RunEnd(data, i) - i < minLength
  }

  /** Soundness: with a positive minimum, every match is a maximal run. */
  lemma {:induction false} MatchesMaximal(data: seq<byte>, minLength: nat, i: nat)
    requires minLength >= 1 && ScanPosition(data, minLength, i)
    ensures forall m :: m in Matches(data, minLength, i) ==> IsMaximalRun(data, m.0, m.1)
    decreases |data| + 1 - i
  {
    if i <= |data| {
      var e := RunEnd(data, i);
      if e - i >= minLength {
        assert IsMaximalRun(data, i, e);
        MatchesMaximal(data, minLength, e);
      } else {
        if i < |data| && Printable(data[i]) {
          assert RunEnd(data, i) == RunEnd(data, i + 1);
        }
        MatchesMaximal(data, minLength, i + 1);
      }
    }
  }

  /** Order: with a positive minimum, matches are found left to right and the
      next one starts strictly after the previous one ends. */
  lemma {:induction false} MatchesOrdered(data: seq<byte>, minLength: nat, i: nat)
    requires minLength >= 1
    ensures forall a, b :: 0 <= a < b < |Matches(data, minLength, i)| ==>
      Matches(data, minLength, i)[a].1 < Matches(data, minLength, i)[b].0
    decreases |data| + 1 - i
  {
    if i <= |data| {
      var e := RunEnd(data, i);
      if e - i >= minLength {
        var rest := Matches(data, minLength, e);
        MatchesOrdered(data, minLength, e);
        assert forall m :: m in rest ==> e < m.0;
        OrderedCons((i, e), rest);
      } else {
        MatchesOrdered(data, minLength, i + 1);
      }
    }
  }

  /** Consing a span that ends before every later one keeps spans ordered. */
  lemma OrderedCons(x: (nat, nat), rest: seq<(nat, nat)>)
    requires forall a, b :: 0 <= a < b < |rest| ==> rest[a].1 < rest[b].0
    requires forall m :: m in rest ==> x.1 < m.0
    ensures forall a, b :: 0 <= a < b < |[x] + rest| ==> ([x] + rest)[a].1 < ([x] + rest)[b].0
  {
    var ms := [x] + rest;
    forall a, b | 0 <= a < b < |ms|
      ensures ms[a].1 < ms[b].0
    {
      assert ms[b] == rest[b - 1];
      if a > 0 {
        assert ms[a] == rest[a - 1];
      }
    }
  }

  /** Completeness: every maximal run at least minLength long, starting at or
      after i, is among the matches. */
  lemma {:induction false} MatchesComplete(data: seq<byte>, minLength: nat, i: nat, s: nat, e: nat)
    requires minLength >= 1 && IsMaximalRun(data, s, e) && e - s >= minLength && i <= s
    ensures (s, e) in Matches(data, minLength, i)
    decreases s - i
  {
    var r := RunEnd(data, i);
    if i == s {
      RunEndOfMaximal(data, s, e, s);
    } else {
      if r - i >= minLength {
        MatchesComplete(data, minLength, r, s, e);
      } else {
        MatchesComplete(data, minLength, i + 1, s, e);
      }
    }
  }

  /** Inside a maximal run, the greedy extent from any position is the run's end. */
  lemma {:induction false} RunEndOfMaximal(data: seq<byte>, s: nat, e: nat, i: nat)
    requires IsMaximalRun(data, s, e) && s <= i <= e
    ensures RunEnd(data, i) == e
    decreases e - i
  {
    if i < e {
      RunEndOfMaximal(data, s, e, i + 1);
    }
  }

  /** The text of a run of printable bytes: each byte is an ASCII character,
      so decode('utf-8', errors='ignore') drops nothing. */
  function AsciiText(run: seq<byte>): (t: string)
    requires forall k :: 0 <= k < |run| ==> Printable(run[k])
    ensures |t| == |run|
    ensures forall k :: 0 <= k < |t| ==> t[k] as int == run[k] && 0x20 <= t[k] as int <= 0x7E
  {
    seq(|run|, k requires 0 <= k < |run| => Ascii(run[k]))
  }

  function Ascii(b: byte): (c: char)
    requires Printable(b)
    ensures c as int == b && 0x20 <= c as int <= 0x7E
  {
    b as char
  }

  /** extract_strings_from_bytes(data, minLength). */
  function ExtractStrings(data: seq<byte>, minLength: nat): (strs: seq<string>)
    ensures |strs| == |Matches(data, minLength, 0)|
    ensures forall j :: 0 <= j < |strs| ==>
      var m := Matches(data, minLength, 0)[j];
      |strs[j]| == m.1 - m.0 >= minLength
      && forall k :: 0 <= k < |strs[j]| ==> strs[j][k] as int == data[m.0 + k] && 0x20 <= strs[j][k] as int <= 0x7E
  {
    var ms := Matches(data, minLength, 0);
    seq(|ms|, j requires 0 <= j < |ms| => AsciiText(data[ms[j].0..ms[j].1]))
  }

  /** What the scanner promises, for the positive minimum every caller uses: the
      strings are exactly the maximal printable runs at least minLength long, in
      order of occurrence. */
  lemma ExtractStringsAreRuns(data: seq<byte>, minLength: nat)
    requires minLength >= 1
    ensures forall m :: m in Matches(data, minLength, 0) ==> IsMaximalRun(data, m.0, m.1)
    ensures forall s: nat, e: nat :: IsMaximalRun(data, s, e) && e - s >= minLength ==> (s, e) in Matches(data, minLength, 0)
    ensures forall a, b :: 0 <= a < b < |Matches(data, minLength, 0)| ==>
      Matches(data, minLength, 0)[a].1 < Matches(data, minLength, 0)[b].0
  {
    MatchesMaximal(data, minLength, 0);
    MatchesOrdered(data, minLength, 0);
    forall s: nat, e: nat | IsMaximalRun(data, s, e) && e - s >= minLength
      ensures (s, e) in Matches(data, minLength, 0)
    {
      MatchesComplete(data, minLength, 0, s, e);
    }
  }

  /** With no printable byte there is nothing to report. */
  lemma NoPrintableNoStrings(data: seq<byte>, minLength: nat)
    requires minLength >= 1 && forall k :: 0 <= k < |data| ==> !Printable(data[k])
    ensures ExtractStrings(data, minLength) == []
  {
    NoPrintableNoMatches(data, minLength, 0);
  }

  lemma {:induction false} NoPrintableNoMatches(data: seq<byte>, minLength: nat, i: nat)
    requires minLength >= 1 && forall k :: 0 <= k < |data| ==> !Printable(data[k])
    ensures Matches(data, minLength, i) == []
    decreases |data| + 1 - i
  {
    if i <= |data| {
      assert RunEnd(data, i) == i;
      NoPrintableNoMatches(data, minLength, i + 1);
    }
  }
}
