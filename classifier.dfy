/**
 * The depth classifier of `load_tree` (src/tree.rs:171-189): it turns one
 * entry line into a depth and a label.
 *
 * The first four characters of the line are always dropped, unchecked, and
 * count as depth 1. Every following four-character chunk that is one of the
 * indentation tokens `+---`, `|   `, `    ` or `\---` is dropped too and adds
 * one to the depth. What is left is the label, so a label whose own text
 * starts with a token loses that text to the indentation.
 */
module Classifier {
  import opened Wrappers

  datatype Entry = Entry(depth: nat, text: string)

  /** The four indentation tokens of a `tree /A` listing. */
  predicate IsToken(s: string) {
    s == "+---" || s == "|   " || s == "    " || s == "\\---"
  }

  /** `s` begins with an indentation token. */
  predicate StartsWithToken(s: string) {
    |s| >= 4 && IsToken(s[..4])
  }

  /** How many indentation tokens `s` begins with, one after another. */
  function TokenRun(s: string): nat
    decreases |s|
  {
    if StartsWithToken(s) then 1 + TokenRun(s[4..]) else 0
  }

  /**
   * The classification `load_tree` computes for one entry line; None where
   * `line[4..]` is out of range and the original panics.
   */
  function Classification(line: string): (r: Option<Entry>)
    ensures r.None? <==> |line| < 4
    ensures r.Some? ==> r.value.depth >= 1 && 4 * r.value.depth + |r.value.text| == |line|
  {
    if |line| < 4 then None
    else
      var n := TokenRun(line[4..]);
      TokenRunBound(line[4..]);
      Some(Entry(1 + n, line[4 + 4 * n..]))
  }

  lemma {:induction false} TokenRunBound(s: string)
    ensures 4 * TokenRun(s) <= |s|
    decreases |s|
  {
    if StartsWithToken(s) {
      TokenRunBound(s[4..]);
    }
  }

  /** `s` begins with exactly `n` tokens: each of the first `n` chunks is one, the rest does not start with one. */
  ghost predicate TokensThenRest(s: string, n: nat) {
    4 * n <= |s| &&
    (forall k :: 0 <= k < n ==> IsToken(s[4 * k..4 * k + 4])) &&
    !StartsWithToken(s[4 * n..])
  }

  /** TokenRun counts the leading tokens. */
  lemma {:induction false} TokenRunSound(s: string)
    ensures TokensThenRest(s, TokenRun(s))
    decreases |s|
  {
    if StartsWithToken(s) {
      var t := s[4..];
      var n := TokenRun(s);
      TokenRunSound(t);
      assert s[4 * n..] == t[4 * (n - 1)..];
      forall k | 0 <= k < n
        ensures IsToken(s[4 * k..4 * k + 4])
      {
        if k > 0 {
          assert s[4 * k..4 * k + 4] == t[4 * (k - 1)..4 * (k - 1) + 4];
        }
      }
    } else {
      assert s[4 * 0..] == s;
    }
  }

  /** Any count of leading tokens that fits the description is the one TokenRun gives. */
  lemma {:induction false} TokenRunComplete(s: string, n: nat)
    requires TokensThenRest(s, n)
    ensures TokenRun(s) == n
    decreases n
  {
    if n == 0 {
      assert s[4 * 0..] == s;
    } else {
      var t := s[4..];
      assert s[4 * 0..4 * 0 + 4] == s[..4];
      assert s[4 * n..] == t[4 * (n - 1)..];
      forall k | 0 <= k < n - 1
        ensures IsToken(t[4 * k..4 * k + 4])
      {
        assert s[4 * (k + 1)..4 * (k + 1) + 4] == t[4 * k..4 * k + 4];
      }
      TokenRunComplete(t, n - 1);
    }
  }

  /** TokenRun counts exactly the leading tokens, and no other count fits that description. */
  lemma TokenRunExact(s: string, n: nat)
    ensures TokenRun(s) == n <==> TokensThenRest(s, n)
  {
    TokenRunSound(s);
    if TokensThenRest(s, n) {
      TokenRunComplete(s, n);
    }
  }

  /**
   * The classifier's result, characterised without reference to how it is
   * computed: a line of fewer than four characters has none; otherwise the
   * entry is `(d, l)` exactly when the line is four unchecked characters,
   * then exactly `d - 1` indentation tokens, then the label `l`. So the
   * depth is at least 1, the label does not itself start with a token, and
   * `4 * d + |l| == |line|`.
   */
  lemma ClassificationCharacterized(line: string, d: nat, l: string)
    ensures Classification(line).None? <==> |line| < 4
    ensures Classification(line) == Some(Entry(d, l)) <==>
      (|line| >= 4 && d >= 1 && TokensThenRest(line[4..], d - 1) && l == line[4 * d..])
    ensures Classification(line) == Some(Entry(d, l)) ==>
      4 * d + |l| == |line| && !StartsWithToken(l)
  {
    if |line| >= 4 {
      var t := line[4..];
      TokenRunExact(t, TokenRun(t));
      if d >= 1 {
        TokenRunExact(t, d - 1);
        if 4 * (d - 1) <= |t| {
          assert t[4 * (d - 1)..] == line[4 * d..];
        }
      }
    }
  }

  /**
   * The classifier as the original runs it: a do-while loop that drops a
   * four-character chunk and counts it, then continues only while the next
   * chunk is an indentation token.
   */
  method Classify(line: string) returns (r: Option<Entry>)
    ensures r == Classification(line)
  {
    var rest := line;
    var depth: nat := 0;
    var continueLoop := true;
    while continueLoop
      invariant 4 * depth <= |line| && rest == line[4 * depth..]
      invariant continueLoop ==> depth == 0 || StartsWithToken(rest)
      invariant !continueLoop ==> depth >= 1 && !StartsWithToken(rest)
      invariant depth >= 1 ==> |line| >= 4 && TokenRun(line[4..]) == depth - 1 + TokenRun(rest)
      decreases |rest|, continueLoop
    {
      if |rest| < 4 {
        // only on the first pass: `line[4..]` panics on a short line
        return None;
      }
      rest := rest[4..];
      depth := depth + 1;
      continueLoop := StartsWithToken(rest);
    }
    assert TokenRun(rest) == 0;
    return Some(Entry(depth, rest));
  }
}
