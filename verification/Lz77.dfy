/** The LZ77 matcher (`lz77`, minified `na`; `searchLongestMatch_`, minified `Ha`), without lazy matching. */
module Lz77Matching {
  import opened Bits
  import opened Tokens

  // ----- match keys

  /** The next three bytes as one number, or fewer of them near the end. */
  function Key(data: seq<byte>, p: nat): nat
    requires p < |data|
  {
    if p + 1 == |data| then data[p]
    else if p + 2 == |data| then data[p] as int * 256 + data[p + 1]
    else (data[p] as int * 256 + data[p + 1]) * 256 + data[p + 2]
  }

  method MatchKey(data: seq<byte>, p: nat) returns (m: nat)
    requires p < |data|
    ensures m == Key(data, p)
  {
    m := 0;
    var b := 0;
    while b < 3 && p + b != |data|
      invariant b <= 3 && p + b <= |data|
      invariant b == 0 ==> m == 0
      invariant b == 1 ==> m == data[p]
      invariant b == 2 ==> m == data[p] as int * 256 + data[p + 1]
      invariant b == 3 ==> m == Key(data, p)
    {
      m := m * 256 + data[p + b];
      b := b + 1;
    }
  }

  lemma {:induction false} EqualKeys(data: seq<byte>, p: nat, q: nat)
    requires p <= q && q + 3 <= |data| && Key(data, p) == Key(data, q)
    ensures data[p] == data[q] && data[p + 1] == data[q + 1] && data[p + 2] == data[q + 2]
  {
  }

  // ----- the longest match

  /** The earlier occurrence at `p` agrees with the current position for `k` bytes. */
  ghost predicate Agrees(data: seq<byte>, p: nat, at: nat, k: nat) {
    p < at && Repeats(data, at, k, at - p)
  }

  /** Earlier positions whose first three bytes are those at the current position. */
  ghost predicate Candidates(data: seq<byte>, at: nat, list: seq<nat>) {
    at + 3 <= |data| && forall i :: 0 <= i < |list| ==> Agrees(data, list[i], at, 3)
  }

  /** Lengthens a match as far as the bytes agree, at most to 258. */
  method Extend(data: seq<byte>, p: nat, at: nat, start: nat) returns (k: nat)
    requires Agrees(data, p, at, start) && start <= 258
    ensures start <= k <= 258 && Agrees(data, p, at, k)
    ensures k == 258 || !Agrees(data, p, at, k + 1)
  {
    k := start;
    while 258 > k && at + k < |data| && data[p + k] == data[at + k]
      invariant start <= k <= 258 && Agrees(data, p, at, k)
    {
      assert SameByte(data, at + k, at - p);
      k := k + 1;
    }
    if k < 258 && at + k < |data| {
      assert !SameByte(data, at + k, at - p);
    }
  }

  /** Compares the bytes `limit - 1` down to 3; false at the first difference. */
  method AgreesFrom3(data: seq<byte>, p: nat, at: nat, limit: nat) returns (same: bool)
    requires Agrees(data, p, at, 3) && limit >= 3 && at + limit <= |data|
    ensures same ==> Agrees(data, p, at, limit)
    ensures !same ==> !Agrees(data, p, at, limit)
  {
    var g := limit;
    ghost var distance := at - p;
    while 3 < g
      invariant 3 <= g <= limit
      invariant forall j :: at + g <= j < at + limit ==> SameByte(data, j, distance)
    {
      if data[p + g - 1] != data[at + g - 1] {
        assert !SameByte(data, at + g - 1, at - p);
        return false;
      }
      assert SameByte(data, at + g - 1, at - p);
      g := g - 1;
    }
    return true;
  }

  lemma {:induction false} AgreesShorter(data: seq<byte>, p: nat, at: nat, k: nat, l: nat)
    requires l <= k
    ensures Agrees(data, p, at, k) ==> Agrees(data, p, at, l)
  {
  }

  /** No candidate of `list` agrees for more than `k` bytes, up to the limit of 258. */
  ghost predicate NoneLonger(data: seq<byte>, at: nat, list: seq<nat>, k: nat) {
    forall i :: 0 <= i < |list| ==> k == 258 || !Agrees(data, list[i], at, k + 1)
  }

  ghost predicate Rising(list: seq<nat>) {
    forall i, j :: 0 <= i < j < |list| ==> list[i] < list[j]
  }

  /** No candidate of `list` behind `p` agrees for `k` bytes. */
  ghost predicate NoneLater(data: seq<byte>, at: nat, list: seq<nat>, p: int, k: nat) {
    forall i :: 0 <= i < |list| && list[i] > p ==> !Agrees(data, list[i], at, k)
  }

  /** `p` is a candidate that agrees for `k` bytes, none agrees for more, and no later one for as many. */
  ghost predicate Best(data: seq<byte>, at: nat, list: seq<nat>, p: nat, k: nat) {
    && 3 <= k <= 258 && p in list && Agrees(data, p, at, k)
    && NoneLonger(data, at, list, k) && NoneLater(data, at, list, p, k)
  }

  /** A longest match among the candidates, the most recent of several. */
  method LongestMatch(data: seq<byte>, at: nat, list: seq<nat>) returns (length: nat, distance: nat)
    requires Candidates(data, at, list) && |list| > 0 && Rising(list)
    ensures distance <= at && Best(data, at, list, at - distance, length)
  {
    hide Best, NoneLonger, NoneLater;
    length, distance := 0, 0;
    var m := 0;
    while m < |list|
      invariant m <= |list|
      invariant if m == 0 then length == 0
                else distance <= at && Best(data, at, list[|list| - m..], at - distance, length)
    {
      var p := list[|list| - m - 1];
      var same, k := true, 3;
      BestIsMatch(data, at, list, m, at - distance, length);
      if 3 < length {
        same := AgreesFrom3(data, p, at, length);
        k := length;
      }
      if same {
        k := Extend(data, p, at, k);
        ExtendedBest(data, at, list, m, at - distance, length, k);
        if k > length {
          distance, length := at - p, k;
        }
        if k == 258 {
          LongestPossible(data, at, list, m + 1, at - distance);
          break;
        }
      } else {
        RejectedBest(data, at, list, m, at - distance, length);
      }
      m := m + 1;
    }
    assert m == |list| ==> list[0..] == list;
  }

  lemma {:induction false} BestIsMatch(data: seq<byte>, at: nat, list: seq<nat>, m: nat, p: int, length: nat)
    requires m <= |list|
    requires if m == 0 then length == 0 else 0 <= p && Best(data, at, list[|list| - m..], p, length)
    ensures length <= 258 && (3 < length ==> at + length <= |data|)
  {
  }

  lemma {:induction false} RejectedBest(data: seq<byte>, at: nat, list: seq<nat>, m: nat, p: int, length: nat)
    requires 0 < m < |list| && 0 <= p && Best(data, at, list[|list| - m..], p, length)
    requires !Agrees(data, list[|list| - m - 1], at, length)
    ensures Best(data, at, list[|list| - m - 1..], p, length)
  {
    var q := list[|list| - m - 1];
    AgreesShorter(data, q, at, length + 1, length);
    assert list[|list| - m - 1..] == [q] + list[|list| - m..];
    hide Agrees;
  }

  /** A candidate that agrees for at least as many bytes: it is the best one exactly if it agrees for more. */
  lemma {:induction false} ExtendedBest(data: seq<byte>, at: nat, list: seq<nat>, m: nat, p: int, length: nat, k: nat)
    requires m < |list| && Rising(list) && length <= k && 3 <= k <= 258
    requires m > 0 ==> 0 <= p && Best(data, at, list[|list| - m..], p, length)
    requires m == 0 ==> length == 0
    requires Agrees(data, list[|list| - m - 1], at, k)
    requires k == 258 || !Agrees(data, list[|list| - m - 1], at, k + 1)
    ensures k > length ==> Best(data, at, list[|list| - m - 1..], list[|list| - m - 1], k)
    ensures k == length ==> Best(data, at, list[|list| - m - 1..], p, k)
  {
    var q, later := list[|list| - m - 1], list[|list| - m..];
    assert list[|list| - m - 1..] == [q] + later;
    forall i | 0 <= i < |later| ensures q < later[i] {
      assert later[i] == list[|list| - m + i];
    }
    forall i, l | 0 <= i < |later| && k > length && (l == k || l == k + 1)
      ensures l == 259 || !Agrees(data, later[i], at, l)
    {
      AgreesShorter(data, later[i], at, l, length + 1);
    }
    hide Agrees;
  }

  /** Nothing beats a match of length 258: the candidates not looked at are further back. */
  lemma {:induction false} LongestPossible(data: seq<byte>, at: nat, list: seq<nat>, m: nat, p: int)
    requires m <= |list| && Rising(list) && 0 <= p && Best(data, at, list[|list| - m..], p, 258)
    ensures Best(data, at, list, p, 258)
  {
    var seen := list[|list| - m..];
    var j :| 0 <= j < |seen| && seen[j] == p;
    assert list[|list| - m + j] == p;
    forall i | 0 <= i < |list| && list[i] > p ensures !Agrees(data, list[i], at, 258) {
      assert i > |list| - m + j;
      assert list[i] == seen[i - (|list| - m)];
    }
    hide Agrees;
  }

  // ----- the flat token list and the frequencies

  /** What the token list costs: at most two slots for every byte it produces, less one. */
  ghost predicate Compact(tokens: seq<Token>)
    requires AllWritable(tokens)
  {
    |tokens| > 0 ==> |FlatTokens(tokens)| <= 2 * |Expand([], tokens)| - 1
  }

  /** The first `covered` bytes have been turned into tokens, within the room of two slots a byte. */
  ghost predicate Covers(data: seq<byte>, tokens: seq<Token>, covered: nat) {
    && covered <= |data|
    && AllWritable(tokens) && AllAllowed([], tokens)
    && Expand([], tokens) == data[..covered]
    && Compact(tokens)
  }

  lemma {:induction false} FlatTokensAppend(tokens: seq<Token>, t: Token)
    requires AllWritable(tokens) && Allowed(t, 32768)
    ensures AllWritable(tokens + [t]) && FlatTokens(tokens + [t]) == FlatTokens(tokens) + FlatToken(t)
    ensures forall s :: LiteralCount(tokens + [t], s) == LiteralCount(tokens, s) + if SymbolOf(t) == s then 1 else 0
    ensures forall s ::
      DistanceCount(tokens + [t], s)
        == DistanceCount(tokens, s) + if t.Match? && DistanceCode(t.distance).symbol == s then 1 else 0
  {
    assert (tokens + [t])[..|tokens|] == tokens;
  }

  lemma {:induction false} CoveredLength(data: seq<byte>, tokens: seq<Token>, covered: nat)
    requires Covers(data, tokens, covered)
    ensures |Expand([], tokens)| == covered
  {
  }

  lemma {:induction false} CoverLiteral(data: seq<byte>, tokens: seq<Token>, covered: nat)
    requires Covers(data, tokens, covered) && covered < |data|
    ensures Covers(data, tokens + [Literal(data[covered])], covered + 1)
    ensures |FlatTokens(tokens)| + 1 <= 2 * |data|
  {
    var t := Literal(data[covered]);
    FlatTokensAppend(tokens, t);
    ExpandAppend([], tokens, t);
    if |tokens| == 0 { assert FlatTokens(tokens) == []; }
    assert data[..covered] + [data[covered]] == data[..covered + 1];
  }

  lemma {:induction false} CoverMatch(data: seq<byte>, tokens: seq<Token>, covered: nat, length: nat, distance: nat)
    requires Covers(data, tokens, covered) && 3 <= length <= 258 && 1 <= distance <= 32768
    requires Repeats(data, covered, length, distance)
    ensures Covers(data, tokens + [Match(length, distance)], covered + length)
    ensures |FlatTokens(tokens)| + 6 <= 2 * |data|
  {
    var t := Match(length, distance);
    FlatTokensAppend(tokens, t);
    ExpandAppend([], tokens, t);
    CopyReproduces(data, covered, length, distance);
    assert covered > 0 && |tokens| > 0;
  }

  // ----- greedy tokens

  /** Of the positions from `start` on and at most 32768 before `at`, none agrees for `k` bytes. */
  ghost predicate NoneAgrees(data: seq<byte>, at: nat, start: int, k: nat) {
    forall p: nat :: start <= p < at && at - p <= 32768 ==> !Agrees(data, p, at, k)
  }

  /**
   The token a greedy matcher writes at `at`: a literal if no three bytes match or no more than three are left, else
   a longest match up to 258 bytes, and the nearest of these.
   */
  ghost predicate GreedyToken(data: seq<byte>, at: nat, t: Token) {
    if at + 3 >= |data| then t.Literal?
    else
      match t
      case Literal(_) => NoneAgrees(data, at, 0, 3)
      case Match(length, distance) =>
        && 3 <= length <= 258 && distance <= 32768 && distance <= at && Agrees(data, at - distance, at, length)
        && (length < 258 ==> NoneAgrees(data, at, 0, length + 1))
        && NoneAgrees(data, at, at - distance + 1, length)
  }

  ghost predicate Greedy(data: seq<byte>, tokens: seq<Token>) {
    forall i :: 0 <= i < |tokens| ==> GreedyToken(data, |Expand([], tokens[..i])|, tokens[i])
  }

  lemma {:induction false} GreedyAppend(data: seq<byte>, tokens: seq<Token>, t: Token)
    requires Greedy(data, tokens) && GreedyToken(data, |Expand([], tokens)|, t)
    ensures Greedy(data, tokens + [t])
  {
    hide GreedyToken, Expand;
    var more := tokens + [t];
    assert tokens[..|tokens|] == tokens;
    forall i | 0 <= i < |more| ensures GreedyToken(data, |Expand([], more[..i])|, more[i]) {
      assert more[..i] == tokens[..i];
    }
  }

  /** At most one match and one literal are greedy, and not both. */
  lemma {:induction false} GreedyTokenUnique(data: seq<byte>, at: nat, t: Token, u: Token)
    requires GreedyToken(data, at, t) && GreedyToken(data, at, u) && (t.Literal? && u.Literal? ==> t == u)
    ensures t == u
  {
    if at + 3 < |data| {
      if t.Match? { GreedyNotWorse(data, at, t, u); }
      if u.Match? { GreedyNotWorse(data, at, u, t); }
    }
  }

  lemma {:induction false} GreedyNotWorse(data: seq<byte>, at: nat, t: Token, u: Token)
    requires at + 3 < |data| && GreedyToken(data, at, t) && GreedyToken(data, at, u) && t.Match?
    ensures u.Match? && u.length >= t.length && (u.length == t.length ==> u.distance <= t.distance)
  {
    var p := at - t.distance;
    AgreesShorter(data, p, at, t.length, 3);
    if u.Match? && u.length < t.length {
      AgreesShorter(data, p, at, t.length, u.length + 1);
    }
    hide Agrees;
  }

  /** The first tokens expand to the first bytes, and fewer tokens to fewer bytes. */
  lemma {:induction false} ExpandPrefix(tokens: seq<Token>, i: nat)
    requires i <= |tokens| && AllWritable(tokens)
    ensures var e, all := Expand([], tokens[..i]), Expand([], tokens);
      |e| <= |all| && e == all[..|e|] && (i < |tokens| ==> |e| < |all|)
    decreases |tokens| - i
  {
    hide Expand;
    assert tokens[..|tokens|] == tokens;
    if i < |tokens| {
      ExpandPrefix(tokens, i + 1);
      assert tokens[..i + 1] == tokens[..i] + [tokens[i]];
      ExpandAppend([], tokens[..i], tokens[i]);
      var e := Expand([], tokens[..i]);
      if tokens[i].Match? { CopyKeeps(e, tokens[i].length, tokens[i].distance); }
    }
  }

  lemma {:induction false} CopyKeeps(out: seq<byte>, length: nat, distance: nat)
    ensures Copy(out, length, distance)[..|out|] == out
    decreases length
  {
    if length > 0 { CopyKeeps(out + [Back(out, distance)], length - 1, distance); }
  }

  /** The token after the first `i` produces what stands there in the data. */
  lemma {:induction false} TokenStands(data: seq<byte>, tokens: seq<Token>, i: nat)
    requires i < |tokens| && AllWritable(tokens) && Expand([], tokens) == data
    ensures var at := |Expand([], tokens[..i])|; at < |data| && (tokens[i].Literal? ==> tokens[i].value == data[at])
  {
    ExpandPrefix(tokens, i);
    ExpandPrefix(tokens, i + 1);
    assert tokens[..i + 1] == tokens[..i] + [tokens[i]];
    ExpandAppend([], tokens[..i], tokens[i]);
    hide Expand;
  }

  /** The greedy tokens of some data are determined by the data. */
  lemma {:induction false} GreedyUnique(data: seq<byte>, tokens: seq<Token>, others: seq<Token>, i: nat)
    requires Greedy(data, tokens) && Greedy(data, others) && i <= |tokens|
    requires AllWritable(tokens) && AllWritable(others)
    requires Expand([], tokens) == data == Expand([], others)
    ensures i <= |others| && tokens[..i] == others[..i]
    ensures i == |tokens| ==> tokens == others
  {
    hide Expand, GreedyToken, AllWritable;
    if i > 0 {
      GreedyUnique(data, tokens, others, i - 1);
      TokenStands(data, tokens, i - 1);
      assert others[..|others|] == others;
      TokenStands(data, others, i - 1);
      GreedyTokenUnique(data, |Expand([], tokens[..i - 1])|, tokens[i - 1], others[i - 1]);
      assert tokens[..i] == tokens[..i - 1] + [tokens[i - 1]];
      assert others[..i] == others[..i - 1] + [others[i - 1]];
    }
    if i == |tokens| {
      assert tokens[..i] == tokens;
      if i < |others| { TokenStands(data, others, i); }
      assert others[..i] == others;
    }
  }

  /** Earlier positions in ascending order, all with the key they are listed under. */
  ghost predicate ListedRight(data: seq<byte>, at: nat, key: nat, list: seq<nat>) {
    && (forall i :: 0 <= i < |list| ==> list[i] < at && list[i] < |data| && Key(data, list[i]) == key)
    && (forall i, j :: 0 <= i < j < |list| ==> list[i] < list[j])
  }

  ghost predicate TableRight(data: seq<byte>, at: nat, table: map<nat, seq<nat>>) {
    forall key :: key in table ==> ListedRight(data, at, key, table[key])
  }

  /** A position stays right at the end of the list of its key. */
  lemma {:induction false} PushedRight(data: seq<byte>, at: nat, key: nat, list: seq<nat>)
    requires at < |data| && ListedRight(data, at, key, list)
    ensures ListedRight(data, at + 1, key, list)
    ensures key == Key(data, at) ==> ListedRight(data, at + 1, key, list + [at])
  {
    hide Key;
  }

  lemma {:induction false} RememberedRight(data: seq<byte>, at: nat, table: map<nat, seq<nat>>)
    requires at < |data| && TableRight(data, at, table)
    ensures var m := Key(data, at);
      TableRight(data, at + 1, table[m := (if m in table then table[m] else []) + [at]])
  {
    var m := Key(data, at);
    var list := if m in table then table[m] else [];
    assert ListedRight(data, at, m, list);
    hide Key, ListedRight;
    PushedRight(data, at, m, list);
    forall key | key in table ensures ListedRight(data, at + 1, key, table[key]) {
      PushedRight(data, at, key, table[key]);
    }
  }

  /** Three bytes that agree have the same key. */
  lemma {:induction false} KeysOfEqual(data: seq<byte>, p: nat, at: nat)
    requires at + 3 <= |data| && Agrees(data, p, at, 3)
    ensures Key(data, p) == Key(data, at)
  {
    assert SameByte(data, at, at - p) && SameByte(data, at + 1, at - p) && SameByte(data, at + 2, at - p);
  }

  /** Every position in reach of a distance is listed. */
  ghost predicate TableComplete(data: seq<byte>, at: nat, table: map<nat, seq<nat>>)
    requires at <= |data|
  {
    forall p: nat :: p < at && at - p <= 32768 ==> Key(data, p) in table && p in table[Key(data, p)]
  }

  lemma {:induction false} RememberedComplete(data: seq<byte>, at: nat, table: map<nat, seq<nat>>)
    requires at < |data| && TableComplete(data, at, table)
    ensures var m := Key(data, at);
      TableComplete(data, at + 1, table[m := (if m in table then table[m] else []) + [at]])
  {
    hide Key;
  }

  /** The best of the listed positions is the best of all. */
  lemma {:induction false} BestIsGreedy(data: seq<byte>, at: nat, list: seq<nat>, p: nat, k: nat)
    requires at + 3 < |data| && p < at && Best(data, at, list, p, k)
    requires forall i :: 0 <= i < |list| ==> at - list[i] <= 32768
    requires forall q: nat :: q < at && at - q <= 32768 && Key(data, q) == Key(data, at) ==> q in list
    ensures GreedyToken(data, at, Match(k, at - p))
  {
    forall q: nat, l: nat | q < at && at - q <= 32768 && q !in list && l >= 3 ensures !Agrees(data, q, at, l) {
      AgreesShorter(data, q, at, l, 3);
      if Agrees(data, q, at, 3) { KeysOfEqual(data, q, at); }
    }
    hide Agrees, Key;
  }

  lemma {:induction false} NoneIsGreedy(data: seq<byte>, at: nat)
    requires at + 3 < |data|
    requires forall q: nat :: q < at && at - q <= 32768 ==> Key(data, q) != Key(data, at)
    ensures GreedyToken(data, at, Literal(data[at]))
  {
    forall q: nat | q < at && at - q <= 32768 ensures !Agrees(data, q, at, 3) {
      if Agrees(data, q, at, 3) { KeysOfEqual(data, q, at); }
    }
    hide Agrees, Key;
  }

  class Matcher {
    const data: seq<byte>
    /** Positions by the key of the bytes there. */
    var table: map<nat, seq<nat>>
    const slots: array<nat>
    var used: nat
    const litFreq: array<nat>
    const distFreq: array<nat>
    ghost var tokens: seq<Token>
    ghost var covered: nat

    ghost predicate Counted()
      reads `tokens, litFreq, distFreq
    {
      && litFreq.Length == 286 && distFreq.Length == 30 && AllWritable(tokens)
      && (forall s :: 0 <= s < 286 ==> litFreq[s] == LiteralCount(tokens, s) + if s == 256 then 1 else 0)
      && (forall s :: 0 <= s < 30 ==> distFreq[s] == DistanceCount(tokens, s))
    }

    ghost predicate Stored()
      reads `tokens, `used, slots
    {
      slots.Length == 2 * |data| && used <= slots.Length && AllWritable(tokens) && slots[..used] == FlatTokens(tokens)
    }

    ghost predicate Valid()
      reads `tokens, `used, `covered, slots, litFreq, distFreq
    {
      && slots != litFreq && slots != distFreq && litFreq != distFreq
      && Stored() && Counted() && Covers(data, tokens, covered) && Greedy(data, tokens)
    }

    constructor (data: seq<byte>)
      ensures this.data == data && Valid() && covered == 0 && table == map[]
      ensures fresh(slots) && fresh(litFreq) && fresh(distFreq)
    {
      this.data := data;
      table := map[];
      slots, used := new nat[2 * |data|](_ => 0), 0;
      litFreq := new nat[286](s => if s == 256 then 1 else 0);
      distFreq := new nat[30](_ => 0);
      tokens, covered := [], 0;
    }

    /** Stores a literal and counts it. */
    method WriteLiteral(at: nat)
      requires Valid() && at == covered < |data| && GreedyToken(data, at, Literal(data[at]))
      modifies `used, `tokens, `covered, slots, litFreq
      ensures Valid() && covered == old(covered) + 1
    {
      hide LengthCode, DistanceCode, Covers, FlatTokens, LiteralCount, DistanceCount, Expand, Greedy, GreedyToken;
      CoveredLength(data, tokens, covered);
      var z := data[at];
      GreedyAppend(data, tokens, Literal(z));
      CoverLiteral(data, tokens, covered);
      FlatTokensAppend(tokens, Literal(z));
      slots[used] := z;
      used := used + 1;
      litFreq[z] := litFreq[z] + 1;
      tokens := tokens + [Literal(z)];
      covered := covered + 1;
    }

    /** `writeMatch`: six slots and two counters. */
    method WriteMatch(length: nat, distance: nat)
      requires Valid() && 3 <= length <= 258 && 1 <= distance <= 32768 && Repeats(data, covered, length, distance)
      requires GreedyToken(data, covered, Match(length, distance))
      modifies `used, `tokens, `covered, slots, litFreq, distFreq
      ensures Valid() && covered == old(covered) + length
    {
      hide LengthCode, DistanceCode, Covers, FlatTokens, LiteralCount, DistanceCount, Expand, Greedy, GreedyToken;
      CoveredLength(data, tokens, covered);
      ghost var t := Match(length, distance);
      GreedyAppend(data, tokens, t);
      CoverMatch(data, tokens, covered, length, distance);
      FlatTokensAppend(tokens, t);
      LengthCodeInverse(length);
      DistanceCodeInverse(distance);
      var l, d := LengthCode(length), DistanceCode(distance);
      StoreMatch(l, d);
      litFreq[l.symbol] := litFreq[l.symbol] + 1;
      distFreq[d.symbol] := distFreq[d.symbol] + 1;
      tokens := tokens + [t];
      covered := covered + length;
    }

    method StoreMatch(l: Coded, d: Coded)
      requires used + 6 <= slots.Length
      modifies `used, slots
      ensures used == old(used) + 6
      ensures slots[..used] == old(slots[..used]) + [l.symbol, l.extra, l.bits, d.symbol, d.extra, d.bits]
    {
      slots[used], slots[used + 1], slots[used + 2] := l.symbol, l.extra, l.bits;
      slots[used + 3], slots[used + 4], slots[used + 5] := d.symbol, d.extra, d.bits;
      used := used + 6;
    }

    /** What the loop keeps from one position to the next: `skip` positions are covered by the last match. */
    ghost predicate Running(at: nat, skip: int)
      reads this, slots, litFreq, distFreq
    {
      && Valid() && at <= |data| && TableRight(data, at, table) && TableComplete(data, at, table)
      && covered == at + (if skip > 0 then skip else 0) <= |data|
    }

    /** Drops the positions that are too far back for a distance. */
    method Evict(at: nat, m: nat)
      requires Valid() && at < |data| && TableRight(data, at, table) && TableComplete(data, at, table) && m in table
      modifies `table
      ensures TableRight(data, at, table) && TableComplete(data, at, table) && m in table
      ensures forall i :: 0 <= i < |table[m]| ==> at - table[m][i] <= 32768
    {
      while 0 < |table[m]| && 32768 < at - table[m][0]
        invariant TableRight(data, at, table) && TableComplete(data, at, table) && m in table
        decreases if m in table then |table[m]| else 0
      {
        assert ListedRight(data, at, m, table[m]);
        table := table[m := table[m][1..]];
      }
      assert ListedRight(data, at, m, table[m]);
    }

    /** Adds a position to the list of its key. */
    method Remember(at: nat, m: nat)
      requires Valid() && at < |data| && TableRight(data, at, table) && TableComplete(data, at, table)
      requires m == Key(data, at)
      modifies `table
      ensures TableRight(data, at + 1, table) && TableComplete(data, at + 1, table)
    {
      RememberedRight(data, at, table);
      RememberedComplete(data, at, table);
      hide *;
      var list := if m in table then table[m] else [];
      table := table[m := list + [at]];
    }

    /** The last three bytes or fewer are written as they are. */
    method Flush(at: nat)
      requires Valid() && at == covered <= |data| <= at + 3
      modifies `used, `tokens, `covered, slots, litFreq
      ensures Valid() && covered == |data|
    {
      for b := 0 to |data| - at
        invariant Valid() && covered == at + b
      {
        WriteLiteral(at + b);
      }
    }

    lemma {:induction false} ListIsCandidates(at: nat, m: nat)
      requires at + 3 < |data| && TableRight(data, at, table) && m in table && m == Key(data, at)
      ensures Candidates(data, at, table[m]) && Rising(table[m])
    {
      var list := table[m];
      assert ListedRight(data, at, m, list);
      forall i | 0 <= i < |list| ensures Agrees(data, list[i], at, 3) {
        EqualKeys(data, list[i], at);
      }
    }

    /** A match if there is one, else a literal; returns how many following positions it covers. */
    method WriteNext(at: nat, m: nat) returns (skip: nat)
      requires Valid() && at == covered && at + 3 < |data|
      requires TableRight(data, at, table) && TableComplete(data, at, table) && m in table && m == Key(data, at)
      requires forall i :: 0 <= i < |table[m]| ==> at - table[m][i] <= 32768
      modifies `used, `tokens, `covered, slots, litFreq, distFreq
      ensures Valid() && covered == at + 1 + skip <= |data|
    {
      if 0 < |table[m]| {
        ListIsCandidates(at, m);
        var length, distance := LongestMatch(data, at, table[m]);
        BestIsGreedy(data, at, table[m], at - distance, length);
        WriteMatch(length, distance);
        skip := length - 1;
      } else {
        NoneIsGreedy(data, at);
        WriteLiteral(at);
        skip := 0;
      }
    }

    /** Turns the whole input into tokens. */
    method Run()
      requires Valid() && covered == 0 && table == map[]
      modifies this, slots, litFreq, distFreq
      ensures Valid() && covered == |data|
    {
      hide Stored, Counted, Covers, Key;
      var skip: int := 0;
      var at := 0;
      while at < |data|
        invariant Running(at, skip)
      {
        var m := MatchKey(data, at);
        if m !in table { table := table[m := []]; }
        if 0 < skip {
          skip := skip - 1;
        } else {
          Evict(at, m);
          if at + 3 >= |data| {
            Flush(at);
            return;
          }
          skip := WriteNext(at, m);
        }
        Remember(at, m);
        at := at + 1;
      }
    }
  }

  /**
   The tokens of a non-empty input in flat form, ending with the end-of-block symbol, and the
   frequencies of the symbols; the end-of-block symbol is counted twice.
   */
  method Lz77(data: seq<byte>) returns (flat: seq<nat>, litFreq: seq<nat>, distFreq: seq<nat>, ghost tokens: seq<Token>)
    requires |data| > 0
    ensures AllWritable(tokens) && AllAllowed([], tokens) && Expand([], tokens) == data && Greedy(data, tokens)
    ensures flat == FlatTokens(tokens) + [END_OF_BLOCK] && |flat| <= 2 * |data|
    ensures |litFreq| == 286 && |distFreq| == 30
    ensures forall s :: 0 <= s < 286 ==> litFreq[s] == LiteralCount(tokens, s) + if s == 256 then 2 else 0
    ensures forall s :: 0 <= s < 30 ==> distFreq[s] == DistanceCount(tokens, s)
  {
    var matcher := new Matcher(data);
    matcher.Run();
    tokens := matcher.tokens;
    assert data[..|data|] == data;
    assert |tokens| > 0;
    matcher.slots[matcher.used] := END_OF_BLOCK;
    matcher.litFreq[END_OF_BLOCK] := matcher.litFreq[END_OF_BLOCK] + 1;
    flat := matcher.slots[..matcher.used + 1];
    litFreq, distFreq := matcher.litFreq[..], matcher.distFreq[..];
  }
}
