/**
 * The argument associator (`parse_args`): every token is classified as a key
 * or a value on its own, and each key receives the value tokens whose index
 * lies strictly between its own index and the next key's index.
 */
module Args {
  import opened Base
  import opened Text

  /** One key token and the value tokens given to it, in argument order. */
  datatype Pair = Pair(key: string, values: seq<string>)

  /**
   * The partition predicate of `parse_args`: a long flag `--name` whose
   * remainder holds no further `--`, or any token of 2 or 3 bytes that
   * starts with `-`. Lengths are `str::len`, in UTF-8 bytes. (The source's
   * check that the remainder is two bytes shorter than the token always holds.)
   */
  predicate IsKey(arg: string) {
    (StartsWith(arg, "--") && !ContainsSub(arg[2..], "--"))
    || ((ByteLen(arg) == 2 || ByteLen(arg) == 3) && StartsWith(arg, "-"))
  }

  /**
   * The shape of a key: a dash and at least one more character. A key that
   * is not a `--` flag is a single-dash token of 2 or 3 bytes, and a key
   * longer than 3 bytes is a `--` flag with no second `--`.
   */
  lemma KeyShape(arg: string)
    ensures IsKey(arg) ==> |arg| >= 2 && arg[0] == '-'
    ensures IsKey(arg) && !StartsWith(arg, "--") ==> 2 <= ByteLen(arg) <= 3
    ensures IsKey(arg) && ByteLen(arg) > 3 ==> StartsWith(arg, "--") && !ContainsSub(arg[2..], "--")
    ensures StartsWith(arg, "-") && 2 <= ByteLen(arg) <= 3 ==> IsKey(arg)
  {
    if IsKey(arg) && !StartsWith(arg, "--") {
      assert |arg| <= ByteLen(arg);
    }
  }

  /** The classification of every token, position by position. */
  function Classify(args: seq<string>): (kinds: seq<bool>)
    ensures |kinds| == |args| && forall i :: 0 <= i < |args| ==> kinds[i] == IsKey(args[i])
  {
    seq(|args|, i requires 0 <= i < |args| => IsKey(args[i]))
  }

  /** The indices below `n` of the key tokens, in increasing order. */
  function KeyPositions(kinds: seq<bool>, n: nat): (ks: seq<nat>)
    requires n <= |kinds|
    ensures forall j :: 0 <= j < |ks| ==> ks[j] < n
  {
    if n == 0 then [] else KeyPositions(kinds, n - 1) + (if kinds[n - 1] then [n - 1] else [])
  }

  /** The value tokens whose index lies strictly between `lo` and `hi`, in order. */
  function ValuesBetween(args: seq<string>, kinds: seq<bool>, lo: nat, hi: nat): seq<string>
    requires |kinds| == |args| && hi <= |args|
  {
    if hi <= lo + 1 then []
    else ValuesBetween(args, kinds, lo, hi - 1) + (if kinds[hi - 1] then [] else [args[hi - 1]])
  }

  /** Where the values of the `j`-th key stop: the next key's index, or the end. */
  function NextBound(ks: seq<nat>, j: nat, n: nat): nat {
    if j + 1 < |ks| then ks[j + 1] else n
  }

  /** The pair of the `j`-th key: its token and the values up to the next key. */
  function KeyPair(args: seq<string>, kinds: seq<bool>, ks: seq<nat>, j: nat): Pair
    requires |kinds| == |args| && j < |ks| && forall t :: 0 <= t < |ks| ==> ks[t] < |args|
  {
    Pair(args[ks[j]], ValuesBetween(args, kinds, ks[j], NextBound(ks, j, |args|)))
  }

  /** The pairs for a given classification: one per key, in order. */
  function AssociateBy(args: seq<string>, kinds: seq<bool>): (r: seq<Pair>)
    requires |kinds| == |args|
    ensures var ks := KeyPositions(kinds, |args|);
      |r| == |ks| && forall j :: 0 <= j < |ks| ==> r[j] == KeyPair(args, kinds, ks, j)
  {
    var ks := KeyPositions(kinds, |args|);
    seq(|ks|, j requires 0 <= j < |ks| => KeyPair(args, kinds, ks, j))
  }

  /** The result `parse_args` promises: one pair per key token, in order. */
  function Associate(args: seq<string>): seq<Pair> {
    AssociateBy(args, Classify(args))
  }

  /** The source's `(index, token)` tuples for the given indices. */
  function Tagged(args: seq<string>, idx: seq<nat>): seq<(nat, string)>
    requires forall j :: 0 <= j < |idx| ==> idx[j] < |args|
  {
    if idx == [] then []
    else Tagged(args, idx[..|idx| - 1]) + [(idx[|idx| - 1], args[idx[|idx| - 1]])]
  }

  /** The tagged tuples hold exactly the indices and the tokens at them. */
  lemma {:induction false} TaggedAt(args: seq<string>, idx: seq<nat>)
    requires forall j :: 0 <= j < |idx| ==> idx[j] < |args|
    ensures |Tagged(args, idx)| == |idx|
    ensures forall j :: 0 <= j < |idx| ==> Tagged(args, idx)[j] == (idx[j], args[idx[j]])
  {
    if idx != [] {
      TaggedAt(args, idx[..|idx| - 1]);
    }
  }

  /** The `(index, token)` tuples of the value tokens below `n`, in index order. */
  function ValueTags(args: seq<string>, kinds: seq<bool>, n: nat): seq<(nat, string)>
    requires |kinds| == |args| && n <= |args|
  {
    if n == 0 then [] else ValueTags(args, kinds, n - 1) + (if kinds[n - 1] then [] else [(n - 1, args[n - 1])])
  }

  /**
   * The `filter_map` closure of `parse_args`: the tokens of the tagged values
   * that come after index `lo` and, when there is a next key, before `hi`.
   */
  function FilterBetween(vals: seq<(nat, string)>, lo: nat, hi: Option<nat>): seq<string> {
    if vals == [] then []
    else
      var last := vals[|vals| - 1];
      FilterBetween(vals[..|vals| - 1], lo, hi)
      + (if last.0 > lo && (hi.None? || last.0 < hi.value) then [last.1] else [])
  }

  function Bound(hi: Option<nat>, n: nat): nat {
    if hi.Some? && hi.value < n then hi.value else n
  }

  /** Extending the window by index `n - 1` adds that token exactly when it is an in-range value. */
  lemma ValuesBetweenStep(args: seq<string>, kinds: seq<bool>, n: nat, lo: nat, hi: Option<nat>)
    requires |kinds| == |args| && 0 < n <= |args|
    ensures ValuesBetween(args, kinds, lo, Bound(hi, n))
         == ValuesBetween(args, kinds, lo, Bound(hi, n - 1))
            + (if !kinds[n - 1] && n - 1 > lo && (hi.None? || n - 1 < hi.value) then [args[n - 1]] else [])
  {
  }

  /** `filter_map` over one more tuple keeps it exactly when its index is in range. */
  lemma FilterSnoc(vals: seq<(nat, string)>, x: (nat, string), lo: nat, hi: Option<nat>)
    ensures FilterBetween(vals + [x], lo, hi)
         == FilterBetween(vals, lo, hi) + (if x.0 > lo && (hi.None? || x.0 < hi.value) then [x.1] else [])
  {
    assert (vals + [x])[..|vals|] == vals;
  }

  /** `filter_map` over a list that grew by at most one tuple. */
  lemma FilterGrow(before: seq<(nat, string)>, after: seq<(nat, string)>, i: nat, t: string, grew: bool, lo: nat, hi: Option<nat>)
    requires after == before + (if grew then [(i, t)] else [])
    ensures FilterBetween(after, lo, hi)
         == FilterBetween(before, lo, hi) + (if grew && i > lo && (hi.None? || i < hi.value) then [t] else [])
  {
    if grew {
      FilterSnoc(before, (i, t), lo, hi);
    } else {
      assert after == before;
    }
  }

  /** Filtering the tagged value tokens by index is `ValuesBetween`. */
  lemma {:induction false} FilterIsValuesBetween(args: seq<string>, kinds: seq<bool>, n: nat, lo: nat, hi: Option<nat>)
    requires |kinds| == |args| && n <= |args|
    ensures FilterBetween(ValueTags(args, kinds, n), lo, hi) == ValuesBetween(args, kinds, lo, Bound(hi, n))
  {
    if n > 0 {
      FilterIsValuesBetween(args, kinds, n - 1, lo, hi);
      FilterGrow(ValueTags(args, kinds, n - 1), ValueTags(args, kinds, n), n - 1, args[n - 1], !kinds[n - 1], lo, hi);
      ValuesBetweenStep(args, kinds, n, lo, hi);
    }
  }

  /** One step of the partition loop, on the key side. */
  lemma KeysStep(args: seq<string>, kinds: seq<bool>, i: nat)
    requires |kinds| == |args| && i < |args|
    ensures Tagged(args, KeyPositions(kinds, i + 1))
         == Tagged(args, KeyPositions(kinds, i)) + (if kinds[i] then [(i, args[i])] else [])
  {
    var ks := KeyPositions(kinds, i + 1);
    if kinds[i] {
      assert ks[..|ks| - 1] == KeyPositions(kinds, i);
    } else {
      assert ks == KeyPositions(kinds, i);
    }
  }

  /**
   * The `partition` step of `parse_args`: the `(index, token)` tuples of the
   * keys and of the values, each in argument order.
   */
  method PartitionArgs(args: seq<string>) returns (keyArgs: seq<(nat, string)>, valArgs: seq<(nat, string)>)
    ensures keyArgs == Tagged(args, KeyPositions(Classify(args), |args|))
    ensures valArgs == ValueTags(args, Classify(args), |args|)
  {
    ghost var kinds := Classify(args);
    keyArgs, valArgs := [], [];
    for i := 0 to |args|
      invariant keyArgs == Tagged(args, KeyPositions(kinds, i))
      invariant valArgs == ValueTags(args, kinds, i)
    {
      KeysStep(args, kinds, i);
      var tagged := (i, args[i]);
      if IsKey(args[i]) {
        assert kinds[i];
        keyArgs := keyArgs + [tagged];
      } else {
        assert !kinds[i];
        valArgs := valArgs + [tagged];
      }
    }
  }

  /** The `j`-th key with the values `filter_map` keeps for it is the `j`-th pair. */
  lemma FilteredPair(args: seq<string>, kinds: seq<bool>, ks: seq<nat>, j: nat, next: Option<nat>)
    requires |kinds| == |args| && j < |ks| && forall t :: 0 <= t < |ks| ==> ks[t] < |args|
    requires next == if j + 1 < |ks| then Some(ks[j + 1]) else None
    ensures Pair(args[ks[j]], FilterBetween(ValueTags(args, kinds, |args|), ks[j], next)) == KeyPair(args, kinds, ks, j)
  {
    FilterIsValuesBetween(args, kinds, |args|, ks[j], next);
    assert Bound(next, |args|) == NextBound(ks, j, |args|);
  }

  /**
   * `parse_args` over an explicit argument list (index 0, the program name,
   * is classified like every other token): partition the tagged tokens into
   * keys and values, then walk the keys, peeking at the next one, and give
   * each the values the `filter_map` closure selects.
   */
  method ParseArgs(args: seq<string>) returns (pairs: seq<Pair>)
    ensures pairs == Associate(args)
  {
    ghost var kinds := Classify(args);
    var keyArgs, valArgs := PartitionArgs(args);
    ghost var ks := KeyPositions(kinds, |args|);
    TaggedAt(args, ks);
    pairs := [];
    var j := 0;
    while j < |keyArgs|
      invariant j <= |keyArgs| == |ks|
      invariant |pairs| == j && forall t :: 0 <= t < j ==> pairs[t] == KeyPair(args, kinds, ks, t)
    {
      var (kIdx, key) := keyArgs[j];
      var next := if j + 1 < |keyArgs| then Some(keyArgs[j + 1].0) else None;
      var values := FilterBetween(valArgs, kIdx, next);
      FilteredPair(args, kinds, ks, j, next);
      pairs := pairs + [Pair(key, values)];
      j := j + 1;
    }
    assert pairs == AssociateBy(args, kinds);
  }

  // ---------------------------------------------------------------------
  // Properties of the association

  /** The key positions are increasing, all keys, and include every key below `n`. */
  lemma {:induction false} KeyPositionsExact(kinds: seq<bool>, n: nat)
    requires n <= |kinds|
    ensures forall j :: 0 <= j < |KeyPositions(kinds, n)| ==> kinds[KeyPositions(kinds, n)[j]]
    ensures forall j, k :: 0 <= j < k < |KeyPositions(kinds, n)| ==> KeyPositions(kinds, n)[j] < KeyPositions(kinds, n)[k]
    ensures forall i :: 0 <= i < n && kinds[i] ==> i in KeyPositions(kinds, n)
  {
    if n > 0 {
      KeyPositionsExact(kinds, n - 1);
      var prev, ks := KeyPositions(kinds, n - 1), KeyPositions(kinds, n);
      assert ks == prev + (if kinds[n - 1] then [n - 1] else []);
      assert forall j :: 0 <= j < |prev| ==> ks[j] == prev[j] && prev[j] < n - 1;
      forall i | 0 <= i < n && kinds[i]
        ensures i in ks
      {
        if i < n - 1 {
          assert i in prev;
        } else {
          assert ks[|ks| - 1] == i;
        }
      }
    }
  }

  /**
   * `parse_args` yields exactly one pair per key token, in the order of the
   * tokens, each pair headed by its key; with no key token it yields nothing.
   */
  lemma OnePairPerKey(args: seq<string>)
    ensures var ks := KeyPositions(Classify(args), |args|);
      && |Associate(args)| == |ks|
      && (forall j, k :: 0 <= j < k < |ks| ==> ks[j] < ks[k])
      && (forall i :: 0 <= i < |args| ==> (IsKey(args[i]) <==> i in ks))
      && (forall j :: 0 <= j < |ks| ==> Associate(args)[j].key == args[ks[j]])
      && ((forall i :: 0 <= i < |args| ==> !IsKey(args[i])) ==> Associate(args) == [])
  {
    var kinds := Classify(args);
    var ks := KeyPositions(kinds, |args|);
    KeyPositionsExact(kinds, |args|);
    if |ks| > 0 {
      assert kinds[ks[0]];
    }
  }

  /** With no key strictly between `lo` and `hi`, the values between them are the whole run of tokens. */
  lemma {:induction false} ValuesBetweenRun(args: seq<string>, kinds: seq<bool>, lo: nat, hi: nat)
    requires |kinds| == |args| && lo < hi <= |args|
    requires forall i :: lo < i < hi ==> !kinds[i]
    ensures ValuesBetween(args, kinds, lo, hi) == args[lo + 1..hi]
  {
    if hi > lo + 1 {
      ValuesBetweenRun(args, kinds, lo, hi - 1);
      assert args[lo + 1..hi] == args[lo + 1..hi - 1] + [args[hi - 1]];
    }
  }

  /**
   * A key's values are exactly the tokens after it up to the next key (or to
   * the end for the last key), in their original order.
   */
  lemma ValuesAreTheFollowingRun(args: seq<string>, j: nat)
    requires j < |Associate(args)|
    ensures var ks := KeyPositions(Classify(args), |args|);
      ks[j] < NextBound(ks, j, |args|) <= |args|
      && Associate(args)[j].values == args[ks[j] + 1..NextBound(ks, j, |args|)]
      && forall v :: v in Associate(args)[j].values ==> !IsKey(v)
  {
    var kinds := Classify(args);
    var ks := KeyPositions(kinds, |args|);
    KeyPositionsExact(kinds, |args|);
    var hi := NextBound(ks, j, |args|);
    forall i | ks[j] < i < hi
      ensures !kinds[i]
    {
      if kinds[i] {
        assert false;
      }
    }
    ValuesBetweenRun(args, kinds, ks[j], hi);
    forall v | v in args[ks[j] + 1..hi]
      ensures !IsKey(v)
    {
      var i :| ks[j] + 1 <= i < hi && args[i] == v;
      assert !kinds[i];
    }
  }

  /** Values split at a key: those before it and those after it. */
  lemma {:induction false} ValuesBetweenSplit(args: seq<string>, kinds: seq<bool>, lo: nat, mid: nat, hi: nat)
    requires |kinds| == |args| && lo < mid < hi <= |args| && kinds[mid]
    ensures ValuesBetween(args, kinds, lo, hi) == ValuesBetween(args, kinds, lo, mid) + ValuesBetween(args, kinds, mid, hi)
  {
    if hi > mid + 1 {
      ValuesBetweenSplit(args, kinds, lo, mid, hi - 1);
    }
  }

  /** All the values handed out, pair after pair. */
  function AllValues(pairs: seq<Pair>): seq<string> {
    if pairs == [] then [] else pairs[0].values + AllValues(pairs[1..])
  }

  lemma {:induction false} AllValuesFrom(args: seq<string>, kinds: seq<bool>, ks: seq<nat>, j: nat)
    requires |kinds| == |args| && ks == KeyPositions(kinds, |args|) && j < |ks|
    requires forall k :: 0 <= k < |ks| ==> kinds[ks[k]]
    requires forall a, b :: 0 <= a < b < |ks| ==> ks[a] < ks[b]
    ensures AllValues(AssociateBy(args, kinds)[j..]) == ValuesBetween(args, kinds, ks[j], |args|)
    decreases |ks| - j
  {
    var r := AssociateBy(args, kinds);
    assert r[j..] == [r[j]] + r[j + 1..];
    if j + 1 < |ks| {
      AllValuesFrom(args, kinds, ks, j + 1);
      ValuesBetweenSplit(args, kinds, ks[j], ks[j + 1], |args|);
    } else {
      assert r[j + 1..] == [];
    }
  }

  /**
   * Every value token after the first key goes to exactly one pair, in order;
   * value tokens before the first key are in no pair.
   */
  lemma EveryLaterValueOnce(args: seq<string>)
    requires |Associate(args)| > 0
    ensures var ks := KeyPositions(Classify(args), |args|);
      AllValues(Associate(args)) == ValuesBetween(args, Classify(args), ks[0], |args|)
  {
    var kinds := Classify(args);
    KeyPositionsExact(kinds, |args|);
    AllValuesFrom(args, kinds, KeyPositions(kinds, |args|), 0);
    assert Associate(args)[0..] == Associate(args);
  }

  /** A string with no two adjacent dashes does not contain `--`. */
  lemma NoDoubleDash(s: string)
    requires forall j :: 0 <= j < |s| - 1 ==> !(s[j] == '-' && s[j + 1] == '-')
    ensures !ContainsSub(s, "--")
  {
    forall j: nat
      ensures !OccursAt(s, "--", j)
    {
      if j + 2 <= |s| {
        assert s[j..j + 2][0] == s[j] && s[j..j + 2][1] == s[j + 1];
      }
    }
  }

  /** A token that does not start with `-` is a value. */
  lemma NoLeadingDash(s: string)
    requires s == [] || s[0] != '-'
    ensures !IsKey(s)
  {
  }

  /** A program name, one key and one value make a single pair holding that value. */
  lemma KeyThenValue(program: string, key: string, value: string)
    requires !IsKey(program) && IsKey(key) && !IsKey(value)
    ensures Associate([program, key, value]) == [Pair(key, [value])]
  {
    var args := [program, key, value];
    var kinds := Classify(args);
    assert kinds == [false, true, false];
    assert KeyPositions(kinds, 1) == [];
    assert KeyPositions(kinds, 2) == [1];
    var ks := KeyPositions(kinds, |args|);
    assert ks == [1];
    assert ValuesBetween(args, kinds, 1, 2) == [];
    assert ValuesBetween(args, kinds, 1, 3) == [value];
  }

  /** Long tokens the partition predicate takes as keys: `--` and one more `--` at most at the front. */
  lemma LongKeyTokens()
    ensures IsKey("--hex") && IsKey("--no-color") && IsKey("--")
  {
    assert IsKey("--hex") by {
      NoDoubleDash("hex");
      LongFlag("hex");
      assert "--" + "hex" == "--hex";
    }
    assert IsKey("--no-color") by {
      NoDoubleDash("no-color");
      LongFlag("no-color");
      assert "--" + "no-color" == "--no-color";
    }
    assert IsKey("--") by {
      NoDoubleDash("");
      LongFlag("");
      assert "--" + "" == "--";
    }
  }

  /** `--` followed by a name without `--` is a key. */
  lemma LongFlag(name: string)
    requires !ContainsSub(name, "--")
    ensures IsKey("--" + name)
  {
    var t := "--" + name;
    assert t[..2] == "--" && t[2..] == name;
  }

  /** Short tokens the partition predicate takes as keys: a dash and one or two more ASCII characters. */
  lemma ShortKeyTokens()
    ensures IsKey("-h") && IsKey("-ab")
  {
    assert IsAscii("-h") && IsAscii("-ab");
    ByteLenAscii("-h");
    ByteLenAscii("-ab");
    assert "-h"[..1] == "-" && "-ab"[..1] == "-";
  }

  /** Tokens the partition predicate takes as values: a second `--`, a lone or long single dash, no dash. */
  lemma ValueTokens()
    ensures !IsKey("--a--b") && !IsKey("-") && !IsKey("-abc") && !IsKey("0x41")
  {
    assert OccursAt("a--b", "--", 1);
    NoLeadingDash("0x41");
    assert IsAscii("-") && IsAscii("-abc");
    ByteLenAscii("-");
    ByteLenAscii("-abc");
    assert "-abc"[..2][1] == 'a';
  }

  /**
   * A dash and one non-ASCII character is two characters but more than three
   * bytes, so it is a value: `--string -€` gives `--string` the value `-€`.
   */
  lemma WideShortTokenIsValue()
    ensures |"-\U{20AC}"| == 2 && ByteLen("-\U{20AC}") == 4 && !IsKey("-\U{20AC}")
    ensures Associate(["prog", "--string", "-\U{20AC}"]) == [Pair("--string", ["-\U{20AC}"])]
  {
    var t := "-\U{20AC}";
    assert t[1..] == "\U{20AC}" && t[1..][1..] == [];
    assert ByteLen(t[1..]) == CharLen('\U{20AC}') + ByteLen([]) == 3;
    assert ByteLen(t) == 4;
    assert !StartsWith(t, "--") by { assert t[..2][1] != '-'; }
    NoDoubleDash("string");
    LongFlag("string");
    assert "--" + "string" == "--string";
    NoLeadingDash("prog");
    KeyThenValue("prog", "--string", t);
  }

  /** The classification of the worked example's tokens. */
  lemma ExampleClassified()
    ensures Classify(["prog", "--a", "v1", "v2", "-b", "v3"]) == [false, true, false, false, true, false]
  {
    NoDoubleDash("a");
    NoLeadingDash("prog");
    NoLeadingDash("v1");
    NoLeadingDash("v2");
    NoLeadingDash("v3");
    assert IsAscii("-b");
    ByteLenAscii("-b");
    assert !IsKey("prog") && IsKey("--a") && !IsKey("v1") && !IsKey("v2") && IsKey("-b") && !IsKey("v3");
  }

  /** The worked example: a value before any key is dropped, and values follow their key. */
  lemma AssociateExample()
    ensures Associate(["prog", "--a", "v1", "v2", "-b", "v3"])
         == [Pair("--a", ["v1", "v2"]), Pair("-b", ["v3"])]
  {
    ExampleClassified();
    ExampleAssociatedBy(["prog", "--a", "v1", "v2", "-b", "v3"], [false, true, false, false, true, false]);
  }

  /** The pairs of the worked example, given its classification. */
  lemma ExampleAssociatedBy(args: seq<string>, kinds: seq<bool>)
    requires args == ["prog", "--a", "v1", "v2", "-b", "v3"]
    requires kinds == [false, true, false, false, true, false]
    ensures AssociateBy(args, kinds) == [Pair("--a", ["v1", "v2"]), Pair("-b", ["v3"])]
  {
    assert KeyPositions(kinds, 1) == [];
    assert KeyPositions(kinds, 2) == [1];
    assert KeyPositions(kinds, 3) == [1];
    assert KeyPositions(kinds, 4) == [1];
    assert KeyPositions(kinds, 5) == [1, 4];
    var ks := KeyPositions(kinds, |args|);
    assert ks == [1, 4];
    assert ValuesBetween(args, kinds, 1, 3) == ["v1"];
    assert ValuesBetween(args, kinds, 1, 4) == ["v1", "v2"];
    assert ValuesBetween(args, kinds, 4, 5) == [];
    assert ValuesBetween(args, kinds, 4, 6) == ["v3"];
    assert KeyPair(args, kinds, ks, 0) == Pair("--a", ["v1", "v2"]);
    assert KeyPair(args, kinds, ks, 1) == Pair("-b", ["v3"]);
  }
}
