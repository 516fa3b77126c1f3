/**
 * The plain-logic parts of the output parser (Agents/parser.py): dropping
 * candidate steps whose thought repeats an earlier one, the record check
 * that decides whether a parse is accepted, and the assembly of parsed rows
 * from per-key match lists. The regular expressions that produce those match
 * lists, and the model call behind a reparse, are not part of this module.
 */
module Parser {
  import opened Text

  /** A candidate step as the parser hands it on: the keys Thought, Action and Result. */
  datatype Record = Record(thought: string, action: string, result: string)

  /** Python's `s.replace(c, '')`. */
  function Without(s: string, c: char): (r: string)
    ensures |r| <= |s|
    ensures forall i :: 0 <= i < |r| ==> r[i] != c
    decreases |s|
  {
    if s == [] then []
    else if s[0] == c then Without(s[1..], c)
    else [s[0]] + Without(s[1..], c)
  }

  /**
   * Every other character is kept as often as it occurred, and a text
   * without `c` is unchanged.
   */
  lemma {:induction false} WithoutCounts(s: string, c: char)
    ensures multiset(Without(s, c)) == multiset(s)[c := 0]
    ensures c !in s ==> Without(s, c) == s
    decreases |s|
  {
    if s != [] {
      assert s == [s[0]] + s[1..];
      WithoutCounts(s[1..], c);
    }
  }

  /** Removing `c` from a concatenation removes it from each part, in place. */
  lemma {:induction false} WithoutConcat(x: string, y: string, c: char)
    ensures Without(x + y, c) == Without(x, c) + Without(y, c)
    decreases |x|
  {
    if x == [] {
      assert x + y == y;
    } else {
      assert (x + y)[0] == x[0] && (x + y)[1..] == x[1..] + y;
      WithoutConcat(x[1..], y, c);
    }
  }

  /** The comparison key of a thought: quotes removed, then stripped, then lower-cased. */
  function Normalize(thought: string): string
  {
    Lower(Strip(Without(Without(thought, '"'), '\'')))
  }

  /** After both removals neither quote is left. */
  lemma QuotesGone(thought: string)
    ensures var u := Without(Without(thought, '"'), '\''); '"' !in u && '\'' !in u
  {
    var w := Without(thought, '"');
    var u := Without(w, '\'');
    WithoutCounts(w, '\'');
    assert '"' !in multiset(w);
  }

  /** A key holds no quote and no capital ASCII letter, and has no white space at either end. */
  lemma NormalizeKey(thought: string)
    ensures var k := Normalize(thought);
      && '"' !in k && '\'' !in k
      && (forall i :: 0 <= i < |k| ==> !('A' <= k[i] <= 'Z'))
      && (k == [] || (!IsSpace(k[0]) && !IsSpace(k[|k| - 1])))
  {
    var u := Without(Without(thought, '"'), '\'');
    var t := Strip(u);
    QuotesGone(thought);
    StripAbsent(u, '"');
    StripAbsent(u, '\'');
    StripShape(u);
    LowerShape(t);
  }

  function Key(r: Record): string
  {
    Normalize(r.thought)
  }

  /** Keep a record when its key has not been seen, and remember the key. */
  function DedupFrom(rs: seq<Record>, seen: set<string>): seq<Record>
    decreases |rs|
  {
    if rs == [] then []
    else if Key(rs[0]) in seen then DedupFrom(rs[1..], seen)
    else [rs[0]] + DedupFrom(rs[1..], seen + {Key(rs[0])})
  }

  function Dedup(rs: seq<Record>): seq<Record>
  {
    DedupFrom(rs, {})
  }

  /** `filter_duplicate_thoughts`. */
  method FilterDuplicateThoughts(records: seq<Record>) returns (filtered: seq<Record>)
    ensures filtered == Dedup(records)
  {
    var seenThoughts: set<string> := {};
    filtered := [];
    for i := 0 to |records|
      invariant filtered + DedupFrom(records[i..], seenThoughts) == Dedup(records)
    {
      assert records[i..][1..] == records[i + 1..];
      var thought := Normalize(records[i].thought);
      if thought !in seenThoughts {
        seenThoughts := seenThoughts + {thought};
        filtered := filtered + [records[i]];
      }
    }
  }

  /** `a` is `b` with some elements left out, the rest in their order. */
  predicate IsSubsequence<T(==)>(a: seq<T>, b: seq<T>)
    decreases |b|
  {
    if a == [] then true
    else if b == [] then false
    else (a[0] == b[0] && IsSubsequence(a[1..], b[1..])) || IsSubsequence(a, b[1..])
  }

  /** No two records share a key. */
  predicate DistinctKeys(rs: seq<Record>)
  {
    forall i, j :: 0 <= i < j < |rs| ==> Key(rs[i]) != Key(rs[j])
  }

  lemma {:induction false} DedupFromIsSubsequence(rs: seq<Record>, seen: set<string>)
    ensures IsSubsequence(DedupFrom(rs, seen), rs)
    decreases |rs|
  {
    if rs != [] {
      if Key(rs[0]) in seen {
        DedupFromIsSubsequence(rs[1..], seen);
        if DedupFrom(rs[1..], seen) != [] {
          assert IsSubsequence(DedupFrom(rs, seen), rs[1..]);
        }
      } else {
        DedupFromIsSubsequence(rs[1..], seen + {Key(rs[0])});
        var out := DedupFrom(rs, seen);
        assert out[0] == rs[0] && out[1..] == DedupFrom(rs[1..], seen + {Key(rs[0])});
      }
    }
  }

  /** The output keeps the input's records in their order, leaving some out. */
  lemma DedupIsSubsequence(rs: seq<Record>)
    ensures IsSubsequence(Dedup(rs), rs)
    ensures |Dedup(rs)| <= |rs|
  {
    DedupFromIsSubsequence(rs, {});
    SubsequenceLength(Dedup(rs), rs);
  }

  lemma {:induction false} SubsequenceLength<T>(a: seq<T>, b: seq<T>)
    requires IsSubsequence(a, b)
    ensures |a| <= |b|
    decreases |b|
  {
    if a != [] {
      if a[0] == b[0] && IsSubsequence(a[1..], b[1..]) {
        SubsequenceLength(a[1..], b[1..]);
      } else {
        SubsequenceLength(a, b[1..]);
      }
    }
  }

  lemma {:induction false} DedupFromDistinct(rs: seq<Record>, seen: set<string>)
    ensures DistinctKeys(DedupFrom(rs, seen))
    ensures forall i :: 0 <= i < |DedupFrom(rs, seen)| ==> Key(DedupFrom(rs, seen)[i]) !in seen
    decreases |rs|
  {
    if rs != [] {
      if Key(rs[0]) in seen {
        DedupFromDistinct(rs[1..], seen);
      } else {
        var seen' := seen + {Key(rs[0])};
        DedupFromDistinct(rs[1..], seen');
        var rest := DedupFrom(rs[1..], seen');
        var out := DedupFrom(rs, seen);
        assert out == [rs[0]] + rest;
        forall i, j | 0 <= i < j < |out| ensures Key(out[i]) != Key(out[j]) {
          assert out[j] == rest[j - 1];
          if i > 0 {
            assert out[i] == rest[i - 1];
          }
        }
      }
    }
  }

  /** No two output records share a normalised thought. */
  lemma DedupDistinct(rs: seq<Record>)
    ensures DistinctKeys(Dedup(rs))
  {
    DedupFromDistinct(rs, {});
  }

  lemma {:induction false} DedupFromKeepsFirst(rs: seq<Record>, seen: set<string>, i: nat)
    requires i < |rs| && Key(rs[i]) !in seen
    requires forall j :: 0 <= j < i ==> Key(rs[j]) != Key(rs[i])
    ensures rs[i] in DedupFrom(rs, seen)
    decreases |rs|
  {
    if i == 0 {
      assert DedupFrom(rs, seen)[0] == rs[0];
    } else {
      var seen' := if Key(rs[0]) in seen then seen else seen + {Key(rs[0])};
      assert rs[1..][i - 1] == rs[i];
      DedupFromKeepsFirst(rs[1..], seen', i - 1);
      assert DedupFrom(rs[1..], seen') <= DedupFrom(rs, seen) || DedupFrom(rs, seen) == [rs[0]] + DedupFrom(rs[1..], seen');
    }
  }

  /** For each normalised thought of the input, the first record carrying it is kept. */
  lemma DedupKeepsFirst(rs: seq<Record>, i: nat)
    requires i < |rs|
    requires forall j :: 0 <= j < i ==> Key(rs[j]) != Key(rs[i])
    ensures rs[i] in Dedup(rs)
  {
    DedupFromKeepsFirst(rs, {}, i);
  }

  lemma {:induction false} DedupFromOfDistinct(rs: seq<Record>, seen: set<string>)
    requires DistinctKeys(rs)
    requires forall i :: 0 <= i < |rs| ==> Key(rs[i]) !in seen
    ensures DedupFrom(rs, seen) == rs
    decreases |rs|
  {
    if rs != [] {
      var seen' := seen + {Key(rs[0])};
      forall i | 0 <= i < |rs[1..]| ensures Key(rs[1..][i]) !in seen' {
        assert rs[1..][i] == rs[i + 1];
      }
      forall i, j | 0 <= i < j < |rs[1..]| ensures Key(rs[1..][i]) != Key(rs[1..][j]) {
        assert rs[1..][i] == rs[i + 1] && rs[1..][j] == rs[j + 1];
      }
      DedupFromOfDistinct(rs[1..], seen');
    }
  }

  /** Filtering an already filtered list changes nothing. */
  lemma DedupIdempotent(rs: seq<Record>)
    ensures Dedup(Dedup(rs)) == Dedup(rs)
  {
    DedupFromDistinct(rs, {});
    DedupFromOfDistinct(Dedup(rs), {});
  }

  // ---------------------------------------------------------------------
  // validate_dicts

  /** `all(key in d for key in required_keys)`. */
  predicate HasKeys(d: map<string, string>, keys: seq<string>)
  {
    forall k :: k in keys ==> k in d
  }

  /**
   * The scan of `validate_dicts` over a non-empty list: stop with False at
   * the first dict missing a key, stop at the first dict carrying
   * 'Final Score' with whether that value parses as a number, else True.
   */
  function Scan(ds: seq<map<string, string>>, keys: seq<string>, isNumber: string -> bool): bool
    decreases |ds|
  {
    if ds == [] then true
    else if !HasKeys(ds[0], keys) then false
    else if "Final Score" in ds[0] then isNumber(ds[0]["Final Score"])
    else Scan(ds[1..], keys, isNumber)
  }

  /**
   * The nested `validate_dicts`. `isNumber` stands for the question whether
   * Python's `float()` accepts the text.
   */
  method ValidateDicts(dictList: seq<map<string, string>>, requiredKeys: seq<string>, isNumber: string -> bool)
    returns (ok: bool)
    ensures ok == (dictList != [] && Scan(dictList, requiredKeys, isNumber))
  {
    if dictList == [] {
      return false;
    }
    for i := 0 to |dictList|
      invariant Scan(dictList[i..], requiredKeys, isNumber) == Scan(dictList, requiredKeys, isNumber)
    {
      assert dictList[i..][1..] == dictList[i + 1..];
      var d := dictList[i];
      if !(forall key :: key in requiredKeys ==> key in d) {
        return false;
      }
      if "Final Score" in d {
        return isNumber(d["Final Score"]);
      }
    }
    return true;
  }

  /** A dict where the scan stops: it lacks a key or carries 'Final Score'. */
  predicate StopsScan(d: map<string, string>, keys: seq<string>)
  {
    !HasKeys(d, keys) || "Final Score" in d
  }

  /**
   * At the first dict that stops the scan, the verdict is decided by that
   * dict alone: False if it lacks a key, else whether its score is a number.
   */
  lemma {:induction false} ScanDecidedAtFirstStop(ds: seq<map<string, string>>, keys: seq<string>, isNumber: string -> bool, k: nat)
    requires k < |ds| && StopsScan(ds[k], keys)
    requires forall j :: 0 <= j < k ==> !StopsScan(ds[j], keys)
    ensures Scan(ds, keys, isNumber) == (HasKeys(ds[k], keys) && isNumber(ds[k]["Final Score"]))
    decreases k
  {
    if k > 0 {
      assert !StopsScan(ds[0], keys);
      forall j | 0 <= j < k - 1 ensures !StopsScan(ds[1..][j], keys) {
        assert ds[1..][j] == ds[j + 1];
      }
      ScanDecidedAtFirstStop(ds[1..], keys, isNumber, k - 1);
    }
  }

  /** Without a stopping dict every dict has all keys, and the verdict is True. */
  lemma {:induction false} ScanTrueWithoutStop(ds: seq<map<string, string>>, keys: seq<string>, isNumber: string -> bool)
    requires forall j :: 0 <= j < |ds| ==> !StopsScan(ds[j], keys)
    ensures Scan(ds, keys, isNumber)
    decreases |ds|
  {
    if ds != [] {
      forall j | 0 <= j < |ds| - 1 ensures !StopsScan(ds[1..][j], keys) {
        assert ds[1..][j] == ds[j + 1];
      }
      ScanTrueWithoutStop(ds[1..], keys, isNumber);
    }
  }

  /** Once some dict stops the scan, whatever follows the list goes unchecked. */
  lemma {:induction false} LaterDictsUnchecked(ds: seq<map<string, string>>, tail: seq<map<string, string>>,
                                               keys: seq<string>, isNumber: string -> bool, k: nat)
    requires k < |ds| && StopsScan(ds[k], keys)
    ensures Scan(ds + tail, keys, isNumber) == Scan(ds, keys, isNumber)
    decreases k
  {
    if !StopsScan(ds[0], keys) {
      assert (ds + tail)[1..] == ds[1..] + tail;
      assert ds[1..][k - 1] == ds[k];
      LaterDictsUnchecked(ds[1..], tail, keys, isNumber, k - 1);
    }
  }

  // ---------------------------------------------------------------------
  // Row assembly in parse_output

  /** `max(len(match) for match in matches.values())` over the keys. */
  function MaxLength(keys: seq<string>, matches: map<string, seq<string>>): (m: nat)
    requires |keys| > 0 && forall k :: k in keys ==> k in matches
    ensures forall k :: k in keys ==> |matches[k]| <= m
    ensures exists k :: k in keys && |matches[k]| == m
    decreases |keys|
  {
    if |keys| == 1 then |matches[keys[0]]|
    else
      var rest := MaxLength(keys[1..], matches);
      assert forall k :: k in keys ==> k == keys[0] || k in keys[1..];
      if |matches[keys[0]]| >= rest then |matches[keys[0]]| else rest
  }

  /** Key `k`'s cell of row `i`: its stripped i-th match, or "N/A" when it has fewer matches. */
  function Cell(matches: map<string, seq<string>>, k: string, i: nat): string
    requires k in matches
  {
    if i < |matches[k]| then Strip(matches[k][i]) else "N/A"
  }

  /** Row `i`: one cell per key. */
  function Row(keys: seq<string>, matches: map<string, seq<string>>, i: nat): map<string, string>
    requires forall k :: k in keys ==> k in matches
  {
    map k | k in keys :: Cell(matches, k, i)
  }

  /** A row has exactly the given keys; a cell is a stripped match, or "N/A" past the key's last match. */
  lemma RowCells(keys: seq<string>, matches: map<string, seq<string>>, i: nat)
    requires forall k :: k in keys ==> k in matches
    ensures forall k :: k in Row(keys, matches, i) <==> k in keys
    ensures forall k :: k in keys && i < |matches[k]| ==> Row(keys, matches, i)[k] == Strip(matches[k][i])
    ensures forall k :: k in keys && i >= |matches[k]| ==> Row(keys, matches, i)[k] == "N/A"
  {
  }

  /**
   * The loop of `parse_output` that builds `parsed_data`. Every caller passes
   * one of the fixed, non-empty key lists; with no keys `max` would raise.
   */
  method AssembleRows(keys: seq<string>, matches: map<string, seq<string>>) returns (parsedData: seq<map<string, string>>)
    requires |keys| > 0 && forall k :: k in keys ==> k in matches
    ensures |parsedData| == MaxLength(keys, matches)
    ensures forall i :: 0 <= i < |parsedData| ==> parsedData[i] == Row(keys, matches, i)
  {
    var maxLength := MaxLength(keys, matches);
    parsedData := [];
    for i := 0 to maxLength
      invariant |parsedData| == i
      invariant forall j :: 0 <= j < i ==> parsedData[j] == Row(keys, matches, j)
    {
      var parsedEntry := Row(keys, matches, i);
      parsedData := parsedData + [parsedEntry];
    }
  }

  /** Every assembled row holds a real match for at least one key (no row is all "N/A" filler). */
  lemma EveryRowHasAMatch(keys: seq<string>, matches: map<string, seq<string>>, i: nat)
    requires |keys| > 0 && forall k :: k in keys ==> k in matches
    requires i < MaxLength(keys, matches)
    ensures exists k :: k in keys && i < |matches[k]| && Row(keys, matches, i)[k] == Strip(matches[k][i])
  {
    var k :| k in keys && |matches[k]| == MaxLength(keys, matches);
    RowCells(keys, matches, i);
  }

  /** Reading a key's column back gives its stripped matches in order, then "N/A" padding. */
  lemma ColumnReadsBack(keys: seq<string>, matches: map<string, seq<string>>, rows: seq<map<string, string>>, k: string)
    requires |keys| > 0 && forall k :: k in keys ==> k in matches
    requires |rows| == MaxLength(keys, matches)
    requires forall i :: 0 <= i < |rows| ==> rows[i] == Row(keys, matches, i)
    requires k in keys
    ensures |matches[k]| <= |rows|
    ensures forall i :: 0 <= i < |matches[k]| ==> k in rows[i] && rows[i][k] == Strip(matches[k][i])
    ensures forall i :: |matches[k]| <= i < |rows| ==> k in rows[i] && rows[i][k] == "N/A"
  {
    forall i | 0 <= i < |rows| ensures k in rows[i] && rows[i][k] == if i < |matches[k]| then Strip(matches[k][i]) else "N/A" {
      RowCells(keys, matches, i);
    }
  }
}
