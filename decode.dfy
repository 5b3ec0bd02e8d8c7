/**
 * Control skeleton of the greedy autoregressive decoder
 * (`_autoregressive_decode` in core.py).
 *
 * The network (encoder memory, decoder, generator), the white/black-list
 * mask and the greedy arg-max together choose one next id per row; here they
 * are one abstract oracle `next`, so everything proved below holds whatever
 * the weights are.
 */
module Decoder {
  import opened Wrappers

  /** The next-token choice: given the current batch of rows and a row index,
      the id that greedy selection over the masked logits picks for that row. */
  type Oracle = (seq<seq<int>>, nat) -> int

  /** Number of iterations of `range(max_decode_len)`: none when negative. */
  function Steps(maxDecodeLen: int): nat
  {
    if maxDecodeLen < 0 then 0 else maxDecodeLen
  }

  /** The starting context: `batch` copies of the prefix. */
  function Repeat(prefix: seq<int>, batch: nat): seq<seq<int>>
  {
    seq(batch, _ => prefix)
  }

  /** Every row has length w. */
  ghost predicate Rectangular(rows: seq<seq<int>>, w: nat)
  {
    forall r :: 0 <= r < |rows| ==> |rows[r]| == w
  }

  /** `all(eos_id in k for k in context)`. */
  predicate AllHaveEos(rows: seq<seq<int>>, eosId: int)
  {
    forall r :: 0 <= r < |rows| ==> eosId in rows[r]
  }

  /** One decoding step: `torch.cat([context, next_tokens], dim=1)`, one new
      id at the end of every row, chosen by the oracle from the whole batch. */
  function Extend(rows: seq<seq<int>>, next: Oracle): seq<seq<int>>
  {
    seq(|rows|, r requires 0 <= r < |rows| => rows[r] + [next(rows, r)])
  }

  /** The first k ids of every row (a row shorter than k is kept whole). */
  ghost function Truncate(rows: seq<seq<int>>, k: nat): (out: seq<seq<int>>)
  {
    seq(|rows|, r requires 0 <= r < |rows| => if k <= |rows[r]| then rows[r][..k] else rows[r])
  }

  /** The decoding loop with `fuel` iterations left: stop when out of
      iterations or when every row holds eos, otherwise extend and go on. */
  ghost function Run(rows: seq<seq<int>>, fuel: nat, eosId: int, next: Oracle): seq<seq<int>>
    decreases fuel
  {
    if fuel == 0 || AllHaveEos(rows, eosId) then rows
    else Run(Extend(rows, next), fuel - 1, eosId, next)
  }

  /** Number of iterations Run performs. */
  ghost function Taken(rows: seq<seq<int>>, fuel: nat, eosId: int, next: Oracle): nat
    decreases fuel
  {
    if fuel == 0 || AllHaveEos(rows, eosId) then 0
    else 1 + Taken(Extend(rows, next), fuel - 1, eosId, next)
  }

  /** What `pred_token_within_range` keeps: an id in the white-list when one
      is given and not in the black-list when one is given. */
  predicate Permitted(id: int, whitelist: Option<seq<int>>, blacklist: Option<seq<int>>)
  {
    && (whitelist.Some? ==> id in whitelist.value)
    && (blacklist.Some? ==> id !in blacklist.value)
  }

  /** `_autoregressive_decode` on a batch of `batch` rows. */
  method AutoregressiveDecode(batch: nat, prefix: seq<int>, maxDecodeLen: int, eosId: int, next: Oracle)
    returns (context: seq<seq<int>>)
    ensures context == Run(Repeat(prefix, batch), Steps(maxDecodeLen), eosId, next)
    ensures |context| == batch
    ensures forall r :: 0 <= r < batch ==>
      && |prefix| <= |context[r]| <= |prefix| + Steps(maxDecodeLen)
      && context[r][..|prefix|] == prefix
    ensures forall r, q :: 0 <= r < batch && 0 <= q < batch ==> |context[r]| == |context[q]|
    ensures forall r :: 0 <= r < batch && |context[r]| < |prefix| + Steps(maxDecodeLen) ==>
      AllHaveEos(context, eosId)
    ensures forall r, k :: 0 <= r < batch && |prefix| <= k < |context[r]| ==>
      !AllHaveEos(Truncate(context, k), eosId)
    ensures forall r, k :: 0 <= r < batch && |prefix| <= k < |context[r]| ==>
      context[r][k] == next(Truncate(context, k), r)
  {
    ghost var start := Repeat(prefix, batch);
    var n := Steps(maxDecodeLen);
    context := Repeat(prefix, batch);
    var i := 0;
    while i < n
      invariant 0 <= i <= n
      invariant Run(context, n - i, eosId, next) == Run(start, n, eosId, next)
    {
      if AllHaveEos(context, eosId) {
        break;
      }
      context := Extend(context, next);
      i := i + 1;
    }
    RunShape(start, |prefix|, n, eosId, next);
    RunStopsOnlyAtEos(start, |prefix|, n, eosId, next);
    RunNeverStopsEarly(start, |prefix|, n, eosId, next);
    forall r, k | 0 <= r < batch && |prefix| <= k < |context[r]|
      ensures context[r][k] == next(Truncate(context, k), r)
    {
      RunAppendsOracleChoices(start, |prefix|, n, eosId, next, r, k);
    }
  }

  // ---------------------------------------------------------------------
  // Properties of the decoding loop

  /** From rows of width w, Run keeps one row per batch element, appends
      exactly Taken <= fuel ids to every row, and never changes the ids
      already there. */
  lemma {:induction false} RunShape(rows: seq<seq<int>>, w: nat, fuel: nat, eosId: int, next: Oracle)
    requires Rectangular(rows, w)
    ensures var out := Run(rows, fuel, eosId, next);
      && |out| == |rows|
      && Taken(rows, fuel, eosId, next) <= fuel
      && Rectangular(out, w + Taken(rows, fuel, eosId, next))
      && forall r :: 0 <= r < |rows| ==> out[r][..w] == rows[r]
    decreases fuel
  {
    if !(fuel == 0 || AllHaveEos(rows, eosId)) {
      var ext := Extend(rows, next);
      RunShape(ext, w + 1, fuel - 1, eosId, next);
      var out := Run(rows, fuel, eosId, next);
      forall r | 0 <= r < |rows| ensures out[r][..w] == rows[r] {
        assert out[r][..w + 1][..w] == out[r][..w];
      }
    } else {
      forall r | 0 <= r < |rows| ensures rows[r][..w] == rows[r] { }
    }
  }

  /** The loop stops before its last iteration only when every row holds eos. */
  lemma {:induction false} RunStopsOnlyAtEos(rows: seq<seq<int>>, w: nat, fuel: nat, eosId: int, next: Oracle)
    requires Rectangular(rows, w)
    ensures Taken(rows, fuel, eosId, next) < fuel ==> AllHaveEos(Run(rows, fuel, eosId, next), eosId)
    decreases fuel
  {
    if !(fuel == 0 || AllHaveEos(rows, eosId)) {
      RunStopsOnlyAtEos(Extend(rows, next), w + 1, fuel - 1, eosId, next);
    }
  }

  /** Truncating the output of Run back to width w gives its input. */
  lemma TruncateRun(rows: seq<seq<int>>, w: nat, fuel: nat, eosId: int, next: Oracle)
    requires Rectangular(rows, w)
    ensures Truncate(Run(rows, fuel, eosId, next), w) == rows
  {
    RunShape(rows, w, fuel, eosId, next);
  }

  /** One iteration of Run from rows that do not all hold eos: it extends
      them and goes on with one iteration fewer. */
  lemma RunUnfold(rows: seq<seq<int>>, w: nat, fuel: nat, eosId: int, next: Oracle)
    requires Rectangular(rows, w) && fuel > 0 && !AllHaveEos(rows, eosId)
    ensures Rectangular(Extend(rows, next), w + 1)
    ensures Run(rows, fuel, eosId, next) == Run(Extend(rows, next), fuel - 1, eosId, next)
    ensures Taken(rows, fuel, eosId, next) == 1 + Taken(Extend(rows, next), fuel - 1, eosId, next)
    ensures Truncate(Run(rows, fuel, eosId, next), w) == rows
  {
    TruncateRun(rows, w, fuel, eosId, next);
  }

  /** The loop does not stop while some row lacks eos: at every width it
      passed through, some row had no eos yet. */
  lemma {:induction false} RunNeverStopsEarly(rows: seq<seq<int>>, w: nat, fuel: nat, eosId: int, next: Oracle)
    requires Rectangular(rows, w)
    ensures var out := Run(rows, fuel, eosId, next);
      forall k :: w <= k < w + Taken(rows, fuel, eosId, next) ==> !AllHaveEos(Truncate(out, k), eosId)
    decreases fuel
  {
    if !(fuel == 0 || AllHaveEos(rows, eosId)) {
      RunUnfold(rows, w, fuel, eosId, next);
      RunNeverStopsEarly(Extend(rows, next), w + 1, fuel - 1, eosId, next);
    }
  }

  /** Each id the loop appends is the oracle's choice for that row, given
      the batch truncated to the width at which it was appended. */
  lemma {:induction false} RunAppendsOracleChoices(rows: seq<seq<int>>, w: nat, fuel: nat, eosId: int, next: Oracle,
                                                   r: nat, k: nat)
    requires Rectangular(rows, w)
    requires r < |Run(rows, fuel, eosId, next)| && w <= k < |Run(rows, fuel, eosId, next)[r]|
    ensures Run(rows, fuel, eosId, next)[r][k] == next(Truncate(Run(rows, fuel, eosId, next), k), r)
    decreases fuel
  {
    RunShape(rows, w, fuel, eosId, next);
    var ext := Extend(rows, next);
    RunUnfold(rows, w, fuel, eosId, next);
    var out := Run(ext, fuel - 1, eosId, next);
    RunShape(ext, w + 1, fuel - 1, eosId, next);
    if k == w {
      assert out[r][w] == out[r][..w + 1][w];
    } else {
      RunAppendsOracleChoices(ext, w + 1, fuel - 1, eosId, next, r, k);
    }
  }

  /** When the oracle only ever returns permitted ids (the guarantee of the
      mask and greedy selection), every id the loop appends is permitted. */
  lemma RunRespectsMask(rows: seq<seq<int>>, w: nat, fuel: nat, eosId: int, next: Oracle,
                        whitelist: Option<seq<int>>, blacklist: Option<seq<int>>)
    requires Rectangular(rows, w)
    requires forall c, r :: Permitted(next(c, r), whitelist, blacklist)
    ensures var out := Run(rows, fuel, eosId, next);
      forall r, k :: 0 <= r < |out| && w <= k < |out[r]| ==> Permitted(out[r][k], whitelist, blacklist)
  {
    var out := Run(rows, fuel, eosId, next);
    forall r, k | 0 <= r < |out| && w <= k < |out[r]|
      ensures Permitted(out[r][k], whitelist, blacklist)
    {
      RunAppendsOracleChoices(rows, w, fuel, eosId, next, r, k);
    }
  }

  /** Rows that already hold eos keep receiving ids: if the loop ran to its
      last iteration, every row, with or without eos, has grown by the full
      `max_decode_len`. */
  lemma NoPerRowStop(batch: nat, prefix: seq<int>, maxDecodeLen: int, eosId: int, next: Oracle)
    ensures var out := Run(Repeat(prefix, batch), Steps(maxDecodeLen), eosId, next);
      !AllHaveEos(out, eosId) ==>
        forall r :: 0 <= r < |out| ==> |out[r]| == |prefix| + Steps(maxDecodeLen)
  {
    var start := Repeat(prefix, batch);
    RunShape(start, |prefix|, Steps(maxDecodeLen), eosId, next);
    RunStopsOnlyAtEos(start, |prefix|, Steps(maxDecodeLen), eosId, next);
  }
}
