/**
 * The parser for the output of `ubntbox mca-status`: after stripping
 * surrounding whitespace the text is split on runs of carriage returns,
 * line feeds and commas, each segment is split on its first `=`, and the
 * key/value pairs are collected into a dictionary in which a later
 * duplicate key wins. A segment without `=` makes the two-element
 * unpacking fail.
 */
module McaStatus {
  import opened Wrappers
  import opened Text

  // ---------------------------------------------------------------------
  // re.split('[\r\n,]+', s)
  // ---------------------------------------------------------------------

  /** The character class `[\r\n,]`. */
  predicate IsSep(c: char)
  {
    c == '\r' || c == '\n' || c == ','
  }

  predicate NoSep(s: string)
  {
    forall i :: 0 <= i < |s| ==> !IsSep(s[i])
  }

  predicate AllSep(s: string)
  {
    forall i :: 0 <= i < |s| ==> IsSep(s[i])
  }

  /** Length of the longest prefix of `s` without a separator. */
  function FieldEnd(s: string): (n: nat)
    ensures n <= |s|
    ensures forall i :: 0 <= i < n ==> !IsSep(s[i])
    ensures n < |s| ==> IsSep(s[n])
  {
    if s == [] || IsSep(s[0]) then 0 else 1 + FieldEnd(s[1..])
  }

  /** End of the run of separators in `s` that starts at `from`. */
  function RunEnd(s: string, from: nat): (n: nat)
    requires from <= |s|
    ensures from <= n <= |s|
    ensures forall i :: from <= i < n ==> IsSep(s[i])
    ensures n < |s| ==> !IsSep(s[n])
    decreases |s| - from
  {
    if from < |s| && IsSep(s[from]) then RunEnd(s, from + 1) else from
  }

  /**
   * re.split('[\r\n,]+', s): the pieces between maximal runs of separators.
   * There is always at least one piece; no piece holds a separator; only the
   * first and the last piece can be empty, the first exactly when `s` is
   * empty or starts with a separator, the last exactly when `s` is empty or
   * ends with one.
   */
  function SplitRuns(s: string): (r: seq<string>)
    ensures |r| >= 1
    ensures forall k :: 0 <= k < |r| ==> NoSep(r[k])
    ensures forall k :: 0 < k < |r| - 1 ==> r[k] != ""
    ensures r[0] == "" <==> s == "" || IsSep(s[0])
    ensures r[|r| - 1] == "" <==> s == "" || IsSep(s[|s| - 1])
    ensures NoSep(s) ==> r == [s]
    decreases |s|
  {
    var i := FieldEnd(s);
    if i == |s| then
      assert s[..i] == s;
      [s]
    else
      var j := RunEnd(s, i);
      assert NoSep(s[..i]) by {
        assert forall k :: 0 <= k < i ==> s[..i][k] == s[k];
      }
      assert j < |s| ==> s[j..][|s| - j - 1] == s[|s| - 1];
      [s[..i]] + SplitRuns(s[j..])
  }

  /** The characters of `s` that are not separators, in order. */
  function Kept(s: string): string
  {
    if s == [] then ""
    else if IsSep(s[0]) then Kept(s[1..])
    else [s[0]] + Kept(s[1..])
  }

  function Concat(parts: seq<string>): string
  {
    if parts == [] then "" else parts[0] + Concat(parts[1..])
  }

  /** A separator-free field followed by a run of separators keeps only the field. */
  lemma {:induction false} KeptFieldRun(s: string, i: nat, j: nat)
    requires i <= j <= |s|
    requires forall k :: 0 <= k < i ==> !IsSep(s[k])
    requires forall k :: i <= k < j ==> IsSep(s[k])
    ensures Kept(s) == s[..i] + Kept(s[j..])
    decreases j
  {
    if j == 0 {
      assert s[..0] == "" && s[0..] == s;
    } else {
      assert s[1..][j - 1..] == s[j..];
      if i == 0 {
        KeptFieldRun(s[1..], 0, j - 1);
        assert s[..0] == "" && s[1..][..0] == "";
      } else {
        KeptFieldRun(s[1..], i - 1, j - 1);
        assert [s[0]] + s[1..][..i - 1] == s[..i];
      }
    }
  }

  /** Splitting loses the separators and nothing else, and keeps the order. */
  lemma {:induction false} SplitRunsKeepsText(s: string)
    ensures Concat(SplitRuns(s)) == Kept(s)
    decreases |s|
  {
    var i := FieldEnd(s);
    if i == |s| {
      KeptFieldRun(s, i, i);
      assert s[..i] == s && s[i..] == "";
    } else {
      var j := RunEnd(s, i);
      SplitRunsKeepsText(s[j..]);
      var rest := SplitRuns(s[j..]);
      assert SplitRuns(s) == [s[..i]] + rest;
      assert ([s[..i]] + rest)[1..] == rest;
      KeptFieldRun(s, i, j);
    }
  }

  /**
   * The pieces with the separator runs between them: `runs[k]` stands
   * between `parts[k]` and `parts[k + 1]`.
   */
  function Interleave(parts: seq<string>, runs: seq<string>): string
    requires |parts| >= 1 && |runs| == |parts| - 1
  {
    if |parts| == 1 then parts[0] else parts[0] + runs[0] + Interleave(parts[1..], runs[1..])
  }

  /** Every run is a non-empty run of separators. */
  predicate ValidRuns(runs: seq<string>)
  {
    forall k :: 0 <= k < |runs| ==> runs[k] != "" && AllSep(runs[k])
  }

  /** The separator runs `re.split` cuts out of `s`, in order. */
  function SepRuns(s: string): (r: seq<string>)
    ensures |r| == |SplitRuns(s)| - 1
    ensures ValidRuns(r)
    decreases |s|
  {
    var i := FieldEnd(s);
    if i == |s| then []
    else
      var j := RunEnd(s, i);
      assert AllSep(s[i..j]) by {
        assert forall k :: 0 <= k < j - i ==> s[i..j][k] == s[i + k];
      }
      [s[i..j]] + SepRuns(s[j..])
  }

  /** The pieces and the runs between them make up the whole text again. */
  lemma {:induction false} SplitRunsRebuild(s: string)
    ensures Interleave(SplitRuns(s), SepRuns(s)) == s
    decreases |s|
  {
    var i := FieldEnd(s);
    if i == |s| {
      assert s[..i] == s;
    } else {
      var j := RunEnd(s, i);
      SplitRunsRebuild(s[j..]);
      InterleaveCons(s[..i], s[i..j], SplitRuns(s[j..]), SepRuns(s[j..]));
      assert s[..i] + s[i..j] == s[..j];
      assert s[..j] + s[j..] == s;
    }
  }

  /** Interleaving a piece and a run in front of more pieces and runs. */
  lemma InterleaveCons(p: string, run: string, rest: seq<string>, runs: seq<string>)
    requires |rest| >= 1 && |runs| == |rest| - 1
    ensures Interleave([p] + rest, [run] + runs) == p + run + Interleave(rest, runs)
  {
    assert ([p] + rest)[1..] == rest && ([run] + runs)[1..] == runs;
  }

  /**
   * The inverse direction: separator-free pieces, of which only the first
   * and the last may be empty, interleaved with non-empty separator runs
   * split back into exactly those pieces. With `SplitRunsRebuild` this
   * determines the result of the split for every text.
   */
  lemma {:induction false} SplitRunsInterleave(parts: seq<string>, runs: seq<string>)
    requires |parts| >= 1 && |runs| == |parts| - 1 && ValidRuns(runs)
    requires forall k :: 0 <= k < |parts| ==> NoSep(parts[k])
    requires forall k :: 0 < k < |parts| - 1 ==> parts[k] != ""
    ensures SplitRuns(Interleave(parts, runs)) == parts
    decreases |parts|
  {
    if |parts| > 1 {
      var tail := Interleave(parts[1..], runs[1..]);
      InterleaveStartsClean(parts[1..], runs[1..]);
      assert runs[0] != "" && AllSep(runs[0]);
      SplitRunsCons(parts[0], runs[0], tail);
      SplitRunsInterleave(parts[1..], runs[1..]);
      assert [parts[0]] + parts[1..] == parts;
    }
  }

  /**
   * A separator-free field, a run of separators and a rest that does not
   * start with a separator split into the field followed by the pieces of
   * the rest.
   */
  lemma SplitRunsCons(p: string, sep: string, tail: string)
    requires NoSep(p) && sep != "" && AllSep(sep) && (tail == "" || !IsSep(tail[0]))
    ensures SplitRuns(p + sep + tail) == [p] + SplitRuns(tail)
  {
    var s := p + sep + tail;
    assert s[|p|] == sep[0];
    assert FieldEnd(s) == |p|;
    if tail != "" {
      assert s[|p| + |sep|] == tail[0];
    }
    assert RunEnd(s, |p|) == |p| + |sep|;
    assert s[|p| + |sep|..] == tail;
    assert s[..|p|] == p;
  }

  /** An interleaving starts with its first piece. */
  lemma InterleaveFirst(parts: seq<string>, runs: seq<string>)
    requires |parts| >= 1 && |runs| == |parts| - 1 && parts[0] != ""
    ensures var t := Interleave(parts, runs); t != "" && t[0] == parts[0][0]
  {
  }

  /** An interleaving whose first piece is separator-free, and empty only when alone, does not start with a separator. */
  lemma InterleaveStartsClean(parts: seq<string>, runs: seq<string>)
    requires |parts| >= 1 && |runs| == |parts| - 1 && NoSep(parts[0])
    requires parts[0] == "" ==> |parts| == 1
    ensures var t := Interleave(parts, runs); t == "" || !IsSep(t[0])
  {
    if parts[0] != "" {
      InterleaveFirst(parts, runs);
    }
  }

  /** An interleaving ends with its last piece. */
  lemma {:induction false} InterleaveLast(parts: seq<string>, runs: seq<string>)
    requires |parts| >= 1 && |runs| == |parts| - 1 && parts[|parts| - 1] != ""
    ensures var t := Interleave(parts, runs);
            t != "" && t[|t| - 1] == parts[|parts| - 1][|parts[|parts| - 1]| - 1]
    decreases |parts|
  {
    if |parts| > 1 {
      InterleaveLast(parts[1..], runs[1..]);
    }
  }

  // ---------------------------------------------------------------------
  // str.split('=', 1)
  // ---------------------------------------------------------------------

  /**
   * str.split(sep, 1): `[s]` when `sep` does not occur, otherwise the text
   * before its first occurrence and the text after it.
   */
  function SplitOnce(s: string, sep: char): (r: seq<string>)
    ensures |r| == 1 || |r| == 2
    ensures |r| == 1 <==> sep !in s
    ensures |r| == 1 ==> r[0] == s
    ensures |r| == 2 ==> s == r[0] + [sep] + r[1] && sep !in r[0]
  {
    if s == [] then [s]
    else if s[0] == sep then ["", s[1..]]
    else
      var t := SplitOnce(s[1..], sep);
      assert |t| == 2 ==> s == [s[0]] + s[1..] == [s[0]] + t[0] + [sep] + t[1];
      [[s[0]] + t[0]] + t[1..]
  }

  /** The first-occurrence split is the only one whose left part lacks the separator. */
  lemma {:induction false} SplitOnceOf(k: string, v: string, sep: char)
    requires sep !in k
    ensures SplitOnce(k + [sep] + v, sep) == [k, v]
    decreases |k|
  {
    var s := k + [sep] + v;
    if k == [] {
      assert s[0] == sep && s[1..] == v;
    } else {
      assert s[0] == k[0] && s[1..] == k[1..] + [sep] + v;
      SplitOnceOf(k[1..], v, sep);
      assert [k[0]] + k[1..] == k;
    }
  }

  // ---------------------------------------------------------------------
  // The dictionary
  // ---------------------------------------------------------------------

  datatype Pair = Pair(key: string, value: string)

  /**
   * The failed two-element unpacking of a segment without `=`. The model
   * records the segment; Python's ValueError does not name it.
   */
  datatype ParseError = NotEnoughValues(segment: string)

  /**
   * Every segment split on its first `=`; the first segment that has none
   * is the error.
   */
  function Pairs(segs: seq<string>): (r: Result<seq<Pair>, ParseError>)
    ensures r.Ok? <==> forall k :: 0 <= k < |segs| ==> '=' in segs[k]
    ensures r.Ok? ==> |r.value| == |segs|
    ensures r.Ok? ==> forall k :: 0 <= k < |segs| ==>
      segs[k] == r.value[k].key + "=" + r.value[k].value && '=' !in r.value[k].key
    ensures r.Err? ==> exists k :: 0 <= k < |segs| && r.error == NotEnoughValues(segs[k]) && '=' !in segs[k]
                                   && forall j :: 0 <= j < k ==> '=' in segs[j]
  {
    if segs == [] then Ok([])
    else
      var parts := SplitOnce(segs[0], '=');
      if |parts| == 1 then Err(NotEnoughValues(segs[0]))
      else match Pairs(segs[1..])
        case Ok(rest) => Ok([Pair(parts[0], parts[1])] + rest)
        case Err(e) =>
          assert exists k :: 0 <= k < |segs| - 1 && e == NotEnoughValues(segs[1..][k]) && '=' !in segs[1..][k]
                             && forall j :: 0 <= j < k ==> '=' in segs[1..][j];
          var k :| 0 <= k < |segs| - 1 && e == NotEnoughValues(segs[1..][k]) && '=' !in segs[1..][k]
                   && forall j :: 0 <= j < k ==> '=' in segs[1..][j];
          assert forall j :: 0 <= j < k + 1 ==> '=' in segs[j] by {
            forall j | 0 <= j < k + 1 ensures '=' in segs[j] {
              if j > 0 { assert segs[j] == segs[1..][j - 1]; }
            }
          }
          Err(e)
  }

  /** No later pair carries the key of pair `i`. */
  predicate LastOfKey(pairs: seq<Pair>, i: nat)
    requires i < |pairs|
  {
    forall j :: i < j < |pairs| ==> pairs[j].key != pairs[i].key
  }

  /**
   * The dictionary comprehension: its keys are the pairs' keys, and for each
   * key the value of the last pair carrying it.
   */
  function ToMap(pairs: seq<Pair>): (r: map<string, string>)
    ensures r.Keys == set p | p in pairs :: p.key
    ensures forall i :: 0 <= i < |pairs| && LastOfKey(pairs, i) ==> r[pairs[i].key] == pairs[i].value
  {
    if pairs == [] then map[]
    else
      var init := pairs[..|pairs| - 1];
      var last := pairs[|pairs| - 1];
      assert pairs == init + [last];
      assert forall i :: 0 <= i < |init| && LastOfKey(pairs, i) ==> LastOfKey(init, i);
      ToMap(init)[last.key := last.value]
  }

  /** A key carried by some pair is carried by a last one. */
  lemma {:induction false} LastWithKey(pairs: seq<Pair>, key: string)
    requires exists i :: 0 <= i < |pairs| && pairs[i].key == key
    ensures exists i :: 0 <= i < |pairs| && pairs[i].key == key && LastOfKey(pairs, i)
  {
    var n := |pairs| - 1;
    if pairs[n].key == key {
      assert pairs[n].key == key && LastOfKey(pairs, n);
    } else {
      var init := pairs[..n];
      var i :| 0 <= i < |pairs| && pairs[i].key == key;
      assert i < n && init[i].key == key;
      LastWithKey(init, key);
      var j :| 0 <= j < n && init[j].key == key && LastOfKey(init, j);
      forall m | j < m < |pairs| ensures pairs[m].key != pairs[j].key {
        if m < n {
          assert pairs[m] == init[m];
        }
      }
      assert pairs[j].key == key && LastOfKey(pairs, j);
    }
  }

  /** The key of a segment: the text before its first `=` (all of it when there is none). */
  function KeyOf(seg: string): string
  {
    SplitOnce(seg, '=')[0]
  }

  /** No later segment has the key of segment `i`. */
  predicate LastSegmentOfKey(segs: seq<string>, i: nat)
    requires i < |segs|
  {
    forall j :: i < j < |segs| ==> KeyOf(segs[j]) != KeyOf(segs[i])
  }

  /** The key of each pair is the key of its segment. */
  lemma PairKeysAreSegmentKeys(segs: seq<string>, pairs: seq<Pair>)
    requires Pairs(segs) == Ok(pairs)
    ensures forall k :: 0 <= k < |segs| ==> pairs[k].key == KeyOf(segs[k])
  {
    forall k | 0 <= k < |segs| ensures pairs[k].key == KeyOf(segs[k]) {
      SplitOnceOf(pairs[k].key, pairs[k].value, '=');
    }
  }

  /** The entry of one key is one of the segments, and the key holds no `=`. */
  lemma EntryIsSegment(segs: seq<string>, pairs: seq<Pair>, key: string)
    requires Pairs(segs) == Ok(pairs) && key in ToMap(pairs)
    ensures '=' !in key && key + "=" + ToMap(pairs)[key] in segs
  {
    var p :| p in pairs && p.key == key;
    var i :| 0 <= i < |pairs| && pairs[i] == p;
    LastWithKey(pairs, key);
    var j :| 0 <= j < |pairs| && pairs[j].key == key && LastOfKey(pairs, j);
    assert segs[j] == key + "=" + ToMap(pairs)[key];
  }

  /** Each entry of the dictionary is one of the segments, and no key holds `=`. */
  lemma EntriesAreSegments(segs: seq<string>, pairs: seq<Pair>)
    requires Pairs(segs) == Ok(pairs)
    ensures forall key :: key in ToMap(pairs) ==> '=' !in key && key + "=" + ToMap(pairs)[key] in segs
  {
    forall key | key in ToMap(pairs) ensures '=' !in key && key + "=" + ToMap(pairs)[key] in segs {
      EntryIsSegment(segs, pairs, key);
    }
  }

  /** Each segment's key is an entry of the dictionary. */
  lemma SegmentKeysAreEntries(segs: seq<string>, pairs: seq<Pair>)
    requires Pairs(segs) == Ok(pairs)
    ensures forall k :: 0 <= k < |segs| ==> KeyOf(segs[k]) in ToMap(pairs)
  {
    PairKeysAreSegmentKeys(segs, pairs);
    forall k | 0 <= k < |segs| ensures KeyOf(segs[k]) in ToMap(pairs) {
      assert pairs[k] in pairs;
    }
  }

  /** The last segment carrying a key is the one whose value the dictionary keeps. */
  lemma LastSegmentWins(segs: seq<string>, pairs: seq<Pair>)
    requires Pairs(segs) == Ok(pairs)
    ensures forall k :: 0 <= k < |segs| && LastSegmentOfKey(segs, k) ==>
      KeyOf(segs[k]) in ToMap(pairs) && KeyOf(segs[k]) + "=" + ToMap(pairs)[KeyOf(segs[k])] == segs[k]
  {
    PairKeysAreSegmentKeys(segs, pairs);
    forall k | 0 <= k < |segs| && LastSegmentOfKey(segs, k)
      ensures KeyOf(segs[k]) in ToMap(pairs) && KeyOf(segs[k]) + "=" + ToMap(pairs)[KeyOf(segs[k])] == segs[k]
    {
      assert LastOfKey(pairs, k);
      assert pairs[k] in pairs;
    }
  }

  /**
   * A dictionary built from the segments: every entry is a segment
   * `key=value` with no `=` in the key, every segment's key is present, and
   * each key holds the value of the last segment carrying it.
   */
  predicate CollectedFrom(segs: seq<string>, m: map<string, string>)
  {
    && (forall key :: key in m ==> '=' !in key && key + "=" + m[key] in segs)
    && (forall k :: 0 <= k < |segs| ==> KeyOf(segs[k]) in m)
    && (forall k :: 0 <= k < |segs| && LastSegmentOfKey(segs, k) ==>
          KeyOf(segs[k]) in m && KeyOf(segs[k]) + "=" + m[KeyOf(segs[k])] == segs[k])
  }

  /** The dictionary of successfully split segments is collected from them. */
  lemma CollectOk(segs: seq<string>, pairs: seq<Pair>)
    requires Pairs(segs) == Ok(pairs)
    ensures CollectedFrom(segs, ToMap(pairs))
  {
    EntriesAreSegments(segs, pairs);
    SegmentKeysAreEntries(segs, pairs);
    LastSegmentWins(segs, pairs);
  }

  /**
   * The dictionary comprehension over the split segments. It is an error
   * exactly when some segment has no `=`, and then it fails at the first
   * such segment. Otherwise every entry is some segment `key=value` with no
   * `=` in the key, every segment's key is present, and the value a key
   * keeps is the one of the last segment carrying it.
   */
  function Collect(segs: seq<string>): (r: Result<map<string, string>, ParseError>)
    ensures r.Ok? <==> forall k :: 0 <= k < |segs| ==> '=' in segs[k]
    ensures r.Ok? ==> CollectedFrom(segs, r.value)
    ensures r.Err? ==> exists k :: 0 <= k < |segs| && r.error == NotEnoughValues(segs[k]) && '=' !in segs[k]
                                   && forall j :: 0 <= j < k ==> '=' in segs[j]
  {
    match Pairs(segs)
    case Ok(pairs) =>
      CollectOk(segs, pairs);
      Ok(ToMap(pairs))
    case Err(e) => Err(e)
  }

  /** The segments the parser works on: the stripped output split on separator runs. */
  function Segments(text: string): seq<string>
  {
    SplitRuns(Strip(text))
  }

  /** The key and the value of a separator-free `key=value` segment hold no separator. */
  lemma NoSepLine(key: string, value: string)
    requires NoSep(key + "=" + value)
    ensures NoSep(key) && NoSep(value)
  {
    var l := key + "=" + value;
    assert forall i :: 0 <= i < |key| ==> l[i] == key[i];
    assert forall i :: 0 <= i < |value| ==> l[|key| + 1 + i] == value[i];
  }

  /** Collecting separator-free segments gives separator-free keys and values. */
  lemma CollectNoSep(segs: seq<string>)
    requires forall k :: 0 <= k < |segs| ==> NoSep(segs[k])
    ensures var r := Collect(segs);
            && (r.Ok? ==> forall key :: key in r.value ==> NoSep(key) && NoSep(r.value[key]))
            && (r.Err? ==> NoSep(r.error.segment))
  {
    var r := Collect(segs);
    if r.Ok? {
      forall key | key in r.value ensures NoSep(key) && NoSep(r.value[key]) {
        var i :| 0 <= i < |segs| && segs[i] == key + "=" + r.value[key];
        NoSepLine(key, r.value[key]);
      }
    }
  }

  /**
   * The mca-status dictionary of the command's output. Its keys hold
   * neither `=` nor a separator, and its values hold no separator; it
   * fails at a separator-free segment without `=`.
   */
  function ParseMcaStatus(text: string): (r: Result<map<string, string>, ParseError>)
    ensures r.Ok? ==> forall key :: key in r.value ==> '=' !in key && NoSep(key) && NoSep(r.value[key])
    ensures r.Err? ==> '=' !in r.error.segment && NoSep(r.error.segment)
  {
    CollectNoSep(Segments(text));
    Collect(Segments(text))
  }

  // ---------------------------------------------------------------------
  // Properties
  // ---------------------------------------------------------------------

  /** Empty or whitespace-only output is not a dictionary: the single empty segment has no `=`. */
  lemma BlankOutputFails(text: string)
    requires forall i :: 0 <= i < |text| ==> IsSpace(text[i])
    ensures ParseMcaStatus(text) == Err(NotEnoughValues(""))
  {
    assert Strip(text) == "";
    assert Segments(text) == [""];
  }

  /** A trailing comma leaves an empty last segment, which fails the unpacking. */
  lemma TrailingCommaFails(text: string)
    requires var t := Strip(text); t != "" && t[|t| - 1] == ','
    ensures ParseMcaStatus(text).Err?
  {
    var t := Strip(text);
    assert IsSep(t[|t| - 1]);
    TrailingSeparatorFails(t);
  }

  /** Text ending in a separator fails the unpacking at its empty last segment. */
  lemma TrailingSeparatorFails(t: string)
    requires t != "" && IsSep(t[|t| - 1])
    ensures Collect(SplitRuns(t)).Err?
  {
    var segs := SplitRuns(t);
    LastSegmentEmpty(t);
    SegmentWithoutEqualsFails(segs, |segs| - 1);
  }

  /** Text ending in a separator splits into an empty last segment. */
  lemma LastSegmentEmpty(t: string)
    requires t != "" && IsSep(t[|t| - 1])
    ensures var segs := SplitRuns(t); segs[|segs| - 1] == ""
  {
  }

  /** One segment without `=` fails the whole parse. */
  lemma SegmentWithoutEqualsFails(segs: seq<string>, k: nat)
    requires k < |segs| && '=' !in segs[k]
    ensures Collect(segs).Err?
  {
  }

  /** One `key=value` segment. */
  function PairLine(p: Pair): string
  {
    p.key + "=" + p.value
  }

  /** A pair that prints as one segment and parses back: no `=` in its key, no separator anywhere. */
  predicate Parseable(p: Pair)
  {
    '=' !in p.key && NoSep(p.key) && NoSep(p.value)
  }

  function PairLines(pairs: seq<Pair>): (r: seq<string>)
    ensures |r| == |pairs| && forall k :: 0 <= k < |pairs| ==> r[k] == PairLine(pairs[k])
  {
    if pairs == [] then [] else [PairLine(pairs[0])] + PairLines(pairs[1..])
  }

  /**
   * The segment of a parseable pair is non-empty and free of separators; it
   * starts with the key's first character (or `=`) and ends with the value's
   * last character (or `=`).
   */
  lemma LineSegment(p: Pair)
    requires Parseable(p)
    ensures var l := PairLine(p);
            && l != "" && NoSep(l)
            && l[0] == (if p.key == "" then '=' else p.key[0])
            && l[|l| - 1] == (if p.value == "" then '=' else p.value[|p.value| - 1])
  {
    var l := PairLine(p);
    assert l[|p.key|] == '=';
    forall i | 0 <= i < |l| ensures !IsSep(l[i]) {
      if i < |p.key| {
        assert l[i] == p.key[i];
      } else if i > |p.key| {
        assert l[i] == p.value[i - |p.key| - 1];
      }
    }
    if p.key != "" {
      assert l[0] == p.key[0];
    }
    if p.value != "" {
      assert l[|l| - 1] == p.value[|p.value| - 1];
    }
  }

  /**
   * Round trip: parseable pairs printed as `key=value` segments, with any
   * non-empty run of separators in each gap, parse back to the dictionary of
   * the pairs, later keys winning. Only the text's first and last characters
   * must not be whitespace, since only they meet `strip`.
   */
  lemma ParseRoundTrip(pairs: seq<Pair>, runs: seq<string>)
    requires |pairs| >= 1 && |runs| == |pairs| - 1 && ValidRuns(runs)
    requires forall k :: 0 <= k < |pairs| ==> Parseable(pairs[k])
    requires pairs[0].key == "" || !IsSpace(pairs[0].key[0])
    requires var v := pairs[|pairs| - 1].value; v == "" || !IsSpace(v[|v| - 1])
    ensures ParseMcaStatus(Interleave(PairLines(pairs), runs)) == Ok(ToMap(pairs))
  {
    var segs := PairLines(pairs);
    forall k | 0 <= k < |segs| ensures segs[k] != "" && NoSep(segs[k]) {
      LineSegment(pairs[k]);
    }
    LineSegment(pairs[0]);
    LineSegment(pairs[|pairs| - 1]);
    var text := Interleave(segs, runs);
    InterleaveFirst(segs, runs);
    InterleaveLast(segs, runs);
    StripUnchanged(text);
    SplitRunsInterleave(segs, runs);
    assert Segments(text) == segs;
    PairsOfLines(pairs);
  }

  lemma {:induction false} PairsOfLines(pairs: seq<Pair>)
    requires forall k :: 0 <= k < |pairs| ==> '=' !in pairs[k].key
    ensures Pairs(PairLines(pairs)) == Ok(pairs)
  {
    if pairs != [] {
      SplitOnceOf(pairs[0].key, pairs[0].value, '=');
      assert PairLines(pairs)[1..] == PairLines(pairs[1..]);
      PairsOfLines(pairs[1..]);
      assert [pairs[0]] + pairs[1..] == pairs;
    }
  }

  /** Of two pairs with the same key, the dictionary keeps the later value. */
  lemma ToMapLaterWins(pairs: seq<Pair>)
    requires |pairs| == 2 && pairs[0].key == pairs[1].key
    ensures ToMap(pairs) == map[pairs[1].key := pairs[1].value]
  {
    assert pairs[..1] == [pairs[0]];
    assert pairs[..1][..0] == [];
  }

  /** Of two segments with the same key, the later one's value is kept; a value may itself hold `=`. */
  lemma LaterDuplicateWins(key: string, first: string, second: string, text: string)
    requires Parseable(Pair(key, first)) && Parseable(Pair(key, second))
    requires key == "" || !IsSpace(key[0])
    requires second == "" || !IsSpace(second[|second| - 1])
    requires text == (key + "=" + first) + "," + (key + "=" + second)
    ensures ParseMcaStatus(text) == Ok(map[key := second])
  {
    var pairs := [Pair(key, first), Pair(key, second)];
    var lines := PairLines(pairs);
    assert lines == [PairLine(pairs[0]), PairLine(pairs[1])];
    assert lines[1..] == [PairLine(pairs[1])];
    assert Interleave(lines, [","]) == text;
    assert ValidRuns([","]);
    ParseRoundTrip(pairs, [","]);
    ToMapLaterWins(pairs);
  }
}
