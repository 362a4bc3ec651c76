/**
 * The training driver: the vocabulary, the window loop over the corpus, the
 * loss and its smoothing, the learning-rate schedule and text generation.
 *
 * The layer stack (two LSTM layers and a softmax layer) is a foreign
 * collaborator. It is deterministic, its recurrent state is cleared whenever
 * `Forward` is called with `reset` true, and its weights change only through
 * `Backward`, whose gradients are themselves fixed by the windows fed. So for
 * the duration of one epoch (or one generation run) its output is a function
 * of the windows fed since the last reset: that function is a `Stack`.
 */
module Training {
  import opened Errors
  import opened Vocabulary
  import opened Window
  import opened Sampler
  import opened Metrics

  /** `sample_length`: characters per generated sample. */
  const SampleLength: nat := 500
  /** `sample_count`: samples generated per epoch. */
  const SampleCount: nat := 3
  /** The initial `learning_rate`, 1e-3. */
  const InitialLearningRate: real := 0.001

  /** The layer stack's final output, given the windows fed to it since it was last reset. */
  type Stack = seq<seq<Row>> -> seq<Vector>

  /** Every output of the stack has one row of length `v` per window slot. */
  ghost predicate Emits(stack: Stack, v: nat)
  {
    forall fed :: Shaped(stack(fed), v)
  }

  /** As `Emits`, and every output probability is positive, as a softmax's are. */
  ghost predicate EmitsSoftmax(stack: Stack, v: nat)
  {
    forall fed :: Shaped(stack(fed), v) && Positive(stack(fed))
  }

  ghost predicate Positive(probs: seq<Vector>)
  {
    forall t, i :: 0 <= t < |probs| && 0 <= i < |probs[t]| ==> 0.0 < probs[t][i]
  }

  /** Where the cursor stands after `k` steps of size_buffer - 1 (= 23) characters. */
  function Cursor(k: nat): nat
  {
    k * 23
  }

  /** The number of windows the inner loop trains on when its cursor starts at `pos`. */
  function WindowCount(n: nat, pos: nat): nat
    decreases n - pos
  {
    if pos + SizeBuffer < n then 1 + WindowCount(n, pos + (SizeBuffer - 1)) else 0
  }

  /**
   * Window `j` of the loop starts at `pos + j * (size_buffer - 1)` and the
   * character after it, its last target, is still inside the text.
   */
  lemma {:induction false} WindowInText(n: nat, pos: nat, j: nat)
    requires j < WindowCount(n, pos)
    ensures pos + Cursor(j) + SizeBuffer < n
    decreases j
  {
    if j > 0 {
      WindowInText(n, pos + (SizeBuffer - 1), j - 1);
    }
  }

  /**
   * The loop stops only when the next window would not fit: fewer than
   * size_buffer + 1 characters remain from where the cursor stops.
   */
  lemma {:induction false} EpochCoverage(n: nat, pos: nat)
    ensures n <= pos + Cursor(WindowCount(n, pos)) + SizeBuffer
    decreases n - pos
  {
    if pos + SizeBuffer < n {
      EpochCoverage(n, pos + (SizeBuffer - 1));
    }
  }

  /**
   * When windows 0 .. k-1 fit in a text of length `n` and window `k` does
   * not, the loop from cursor `Cursor(j)` trains on `k - j` windows.
   */
  lemma {:induction false} CountFrom(n: nat, k: nat, j: nat)
    requires j <= k
    requires k == 0 || Cursor(k - 1) + SizeBuffer < n
    requires n <= Cursor(k) + SizeBuffer
    ensures WindowCount(n, Cursor(j)) == k - j
    decreases k - j
  {
    if j < k {
      CountFrom(n, k, j + 1);
    }
  }

  /** A target window built from the corpus can be scored against a softmax output. */
  lemma TargetsScorable(probs: seq<Vector>, s: string, encode: map<char, nat>, v: nat, offset: nat)
    requires Shaped(probs, v) && Positive(probs)
    requires Covers(s, encode, v)
    requires offset + SizeBuffer - 1 <= |s|
    ensures Scorable(probs, InputWindow(s, encode, v, offset), v)
  {
    var w := InputWindow(s, encode, v, offset);
    assert forall t :: 1 <= t < SizeBuffer ==> w[t].Vec? && |w[t].v| == v;
  }

  class Program {
    const text: string
    const decode: seq<char>
    const encode: map<char, nat>
    const sizeVocab: nat

    var loss: real
    var lossP: real
    var perplexity: real
    var learningRate: real
    /** The `LearningRate` of layer1, layer2 and layer3. */
    var rate1: real
    var rate2: real
    var rate3: real
    var epoch: nat

    /**
     * `encode` and `decode` are inverse, `size_vocab` is the vocabulary's
     * size and every character of the text has a code. (The constructor
     * also fixes `decode` as the text's sorted characters.)
     */
    ghost predicate Valid()
    {
      sizeVocab == |decode| && IsEncoding(encode, decode) && Covers(text, encode, sizeVocab)
    }

    /** Step `k`'s window and the character after it lie inside the text. */
    ghost predicate Fits(k: nat)
    {
      Cursor(k) + SizeBuffer < |text|
    }

    /** The windows of the first `k` steps all lie inside the text. */
    ghost predicate Steps(k: nat)
    {
      k == 0 || Fits(k - 1)
    }

    /** All three layers run at the driver's learning rate, which is positive. */
    ghost predicate RatesAgree()
      reads this
    {
      rate1 == learningRate && rate2 == learningRate && rate3 == learningRate && learningRate > 0.0
    }

    /**
     * Builds the vocabulary of `corpus` and the initial training state;
     * `logVocab` is `Math.Log(size_vocab)`.
     */
    constructor (corpus: string, logVocab: real)
      ensures Valid() && RatesAgree()
      ensures text == corpus && decode == Decode(corpus)
      ensures loss == 0.0 && lossP == logVocab && perplexity == sizeVocab as real
      ensures learningRate == InitialLearningRate && epoch == 0
    {
      text := corpus;
      var d := Decode(corpus);
      decode := d;
      sizeVocab := |d|;
      lossP := logVocab;
      perplexity := |d| as real;
      var e := BuildEncode(d);
      encode := e;
      loss := 0.0;
      learningRate := InitialLearningRate;
      rate1, rate2, rate3 := InitialLearningRate, InitialLearningRate, InitialLearningRate;
      epoch := 0;
      RoundTrip(corpus, e);
    }

    /** A fresh window over the text from `offset`: row 0 left `null`. */
    method FillBuffer(offset: nat) returns (buffer: array<Row>)
      requires Valid()
      requires offset + SizeBuffer - 1 <= |text|
      ensures fresh(buffer)
      ensures buffer[..] == InputWindow(text, encode, sizeVocab, offset)
    {
      buffer := new Row[SizeBuffer](_ => Null);
      for pos := 1 to SizeBuffer
        invariant buffer[0] == Null
        invariant forall p :: 1 <= p < pos ==> buffer[p] == Vec(OneHot(sizeVocab, encode[text[offset + p - 1]]))
      {
        buffer[pos] := Vec(OneHot(sizeVocab, encode[text[pos + offset - 1]]));
      }
    }

    /**
     * Cross-entropy loss of one window: returns the gradient `probs - targets`
     * on rows 1 .. size_buffer-1 and folds the window's loss and perplexity
     * into their moving averages.
     */
    method Loss(probs: seq<Vector>, targets: array<Row>, ln: real -> real, pow: (real, real) -> real)
      returns (grads: array<Row>)
      requires Scorable(probs, targets[..], sizeVocab)
      modifies this`loss, this`perplexity
      ensures fresh(grads) && grads.Length == SizeBuffer && grads[0] == Null
      ensures forall t :: 1 <= t < SizeBuffer ==> grads[t] == Vec(Gradient(probs[t], targets[t].v))
      ensures loss == Smooth(old(loss), CrossEntropy(probs, targets[..], sizeVocab, ln))
      ensures perplexity == Smooth(old(perplexity), Perplexity(probs, targets[..], sizeVocab, pow))
    {
      ghost var q := targets[..];
      var ls := 0.0;
      var pp := 1.0;
      grads := new Row[SizeBuffer](_ => Null);
      for t := 1 to SizeBuffer
        invariant targets[..] == q
        invariant loss == old(loss) && perplexity == old(perplexity)
        invariant ls == LossSoFar(probs, q, sizeVocab, ln, t, 0)
        invariant pp == InverseSoFar(probs, q, sizeVocab, t, 0)
        invariant grads[0] == Null
        invariant forall s :: 1 <= s < t ==> grads[s] == Vec(Gradient(probs[s], q[s].v))
      {
        var row;
        row, ls, pp := ScoreRow(probs, q, sizeVocab, ln, t, probs[t], targets[t].v, ls, pp);
        grads[t] := Vec(row);
      }
      ls := ls / (SizeBuffer - 1) as real;
      loss := loss * 0.99 + ls * 0.01;
      pp := pow(pp, 1.0 / (SizeBuffer - 1) as real);
      perplexity := perplexity * 0.99 + pp * 0.01;
    }

    /** The windows of the first `k` steps of an epoch, in the order they are fed. */
    ghost function Windows(k: nat): (fed: seq<seq<Row>>)
      requires Valid()
      requires Steps(k)
      ensures |fed| == k
    {
      if k == 0 then []
      else
        Windows(k - 1) + [InputWindow(text, encode, sizeVocab, Cursor(k - 1))]
    }

    /** The targets of step `k`: its window moved one character on. */
    ghost function Targets(k: nat): (w: seq<Row>)
      requires Valid()
      requires Fits(k)
      ensures |w| == SizeBuffer
    {
      InputWindow(text, encode, sizeVocab, Cursor(k) + 1)
    }

    /** The cross-entropy of step `k` of an epoch. */
    ghost function WindowLoss(stack: Stack, ln: real -> real, k: nat): real
      requires Valid() && Emits(stack, sizeVocab)
      requires Fits(k)
    {
      CrossEntropy(stack(Windows(k + 1)), Targets(k), sizeVocab, ln)
    }

    /** The perplexity of step `k` of an epoch. */
    ghost function WindowPerplexity(stack: Stack, pow: (real, real) -> real, k: nat): real
      requires Valid() && EmitsSoftmax(stack, sizeVocab)
      requires Fits(k)
    {
      TargetsScorable(stack(Windows(k + 1)), text, encode, sizeVocab, Cursor(k) + 1);
      Perplexity(stack(Windows(k + 1)), Targets(k), sizeVocab, pow)
    }

    /** The cross-entropy of each of the first `k` windows of an epoch. */
    ghost function LossSamples(stack: Stack, ln: real -> real, k: nat): (s: seq<real>)
      requires Valid() && Emits(stack, sizeVocab)
      requires Steps(k)
      ensures |s| == k
    {
      if k == 0 then [] else LossSamples(stack, ln, k - 1) + [WindowLoss(stack, ln, k - 1)]
    }

    /** The perplexity of each of the first `k` windows of an epoch. */
    ghost function PerplexitySamples(stack: Stack, pow: (real, real) -> real, k: nat): (s: seq<real>)
      requires Valid() && EmitsSoftmax(stack, sizeVocab)
      requires Steps(k)
      ensures |s| == k
    {
      if k == 0 then [] else PerplexitySamples(stack, pow, k - 1) + [WindowPerplexity(stack, pow, k - 1)]
    }

    /** Step `k` of an epoch feeds the window at `k * (size_buffer - 1)`. */
    lemma WindowsStep(k: nat)
      requires Valid()
      requires Fits(k)
      ensures Cursor(k) + SizeBuffer < |text|
      ensures Windows(k + 1) == Windows(k) + [InputWindow(text, encode, sizeVocab, Cursor(k))]
      ensures k == 0 ==> Windows(k) == []
    {
    }

    /**
     * The first half of a turn of the inner loop: fill the window at the
     * cursor, run it forward and advance it by the next character to make
     * the targets. `fed` holds the windows fed before this one since the last
     * reset.
     */
    method Forward(stack: Stack, k: nat, fed: seq<seq<Row>>)
      returns (next: seq<seq<Row>>, probs: seq<Vector>, targets: array<Row>)
      requires Valid() && EmitsSoftmax(stack, sizeVocab)
      requires Fits(k)
      requires fed == Windows(k)
      ensures fresh(targets)
      ensures next == Windows(k + 1) && probs == stack(next)
      ensures targets[..] == Targets(k)
      ensures Scorable(probs, targets[..], sizeVocab)
    {
      WindowsStep(k);
      var pos := Cursor(k);
      targets := FillBuffer(pos);
      var reset := pos == 0;
      next := (if reset then [] else fed) + [targets[..]];
      probs := stack(next);
      NextTargets(k, targets);
      TargetsScorable(probs, text, encode, sizeVocab, pos + 1);
    }

    /**
     * Advances the window of step `k` by the one-hot code of the character
     * after it, making the step's targets.
     */
    method NextTargets(k: nat, buffer: array<Row>)
      requires Valid() && Fits(k)
      requires buffer[..] == InputWindow(text, encode, sizeVocab, Cursor(k))
      modifies buffer
      ensures buffer[..] == Targets(k)
    {
      var pos := Cursor(k) + (SizeBuffer - 1);
      AdvanceBuffer(buffer, OneHot(sizeVocab, encode[text[pos]]));
      Slide(text, encode, sizeVocab, Cursor(k));
    }

    /**
     * One turn of the inner loop: `Forward`, then `Loss` on the output
     * against the targets.
     */
    method TrainStep(stack: Stack, ln: real -> real, pow: (real, real) -> real,
                     ghost loss0: real, ghost perplexity0: real, k: nat, fed: seq<seq<Row>>)
      returns (next: seq<seq<Row>>)
      requires Valid() && EmitsSoftmax(stack, sizeVocab)
      requires Trained(stack, ln, pow, loss0, perplexity0, k, fed) && Fits(k)
      modifies this`loss, this`perplexity
      ensures Trained(stack, ln, pow, loss0, perplexity0, k + 1, next)
    {
      var probs, targets;
      next, probs, targets := Forward(stack, k, fed);
      var grads := Loss(probs, targets, ln, pow);
      SmoothAllAppend(loss0, LossSamples(stack, ln, k), WindowLoss(stack, ln, k));
      SmoothAllAppend(perplexity0, PerplexitySamples(stack, pow, k), WindowPerplexity(stack, pow, k));
    }

    /**
     * The state after `k` steps of an epoch that began with averages `loss0`
     * and `perplexity0`: `fed` holds the windows fed so far, and each average
     * is its start smoothed by each window's score in turn.
     */
    ghost predicate Trained(stack: Stack, ln: real -> real, pow: (real, real) -> real,
                            loss0: real, perplexity0: real, k: nat, fed: seq<seq<Row>>)
      requires Valid() && EmitsSoftmax(stack, sizeVocab)
      reads this
    {
      Steps(k) && fed == Windows(k) &&
      loss == SmoothAll(loss0, LossSamples(stack, ln, k)) &&
      perplexity == SmoothAll(perplexity0, PerplexitySamples(stack, pow, k))
    }

    /**
     * The inner loop of one epoch: a training step at every cursor position
     * 0, size_buffer - 1, 2 * (size_buffer - 1), ... while a window and the
     * character after it still fit in the text. `loss` and `perplexity` end
     * as their old values smoothed by each window's score in turn.
     */
    method TrainEpoch(stack: Stack, ln: real -> real, pow: (real, real) -> real) returns (windows: nat)
      requires Valid()
      requires EmitsSoftmax(stack, sizeVocab)
      modifies this`loss, this`perplexity
      ensures windows == WindowCount(|text|, 0) && Steps(windows)
      ensures loss == SmoothAll(old(loss), LossSamples(stack, ln, windows))
      ensures perplexity == SmoothAll(old(perplexity), PerplexitySamples(stack, pow, windows))
    {
      var pos := 0;
      windows := 0;
      var fed: seq<seq<Row>> := [];
      ghost var loss0, perplexity0 := loss, perplexity;
      while pos + SizeBuffer < |text|
        invariant pos == Cursor(windows)
        invariant Trained(stack, ln, pow, loss0, perplexity0, windows, fed)
        decreases |text| - pos
      {
        fed := TrainStep(stack, ln, pow, loss0, perplexity0, windows, fed);
        pos := pos + (SizeBuffer - 1);
        windows := windows + 1;
      }
      CountFrom(|text|, windows, 0);
    }

    /** The seed of every sample: the first size_buffer - 1 characters of the text. */
    ghost function Prompt(): (p: string)
      requires Valid() && |text| >= SizeBuffer - 1
      ensures |p| == SizeBuffer - 1 && Covers(p, encode, sizeVocab)
    {
      assert forall i :: 0 <= i < SizeBuffer - 1 ==> text[..SizeBuffer - 1][i] == text[i];
      text[..SizeBuffer - 1]
    }

    /**
     * `out` and `fed` are what generation has produced so far: the window fed
     * at step k is the window at k over the prompt followed by `out`, and
     * character k of `out` is the weighted choice, by draw k, from the last
     * row of the stack's output after step k's window. `fed` holds one window
     * more than `out` has characters while a choice is pending.
     */
    ghost predicate Generated(stack: Stack, draws: seq<real>, out: string, fed: seq<seq<Row>>)
      requires Valid() && Emits(stack, sizeVocab) && |text| >= SizeBuffer - 1
    {
      |out| <= |fed| <= |out| + 1 && |out| <= |draws| &&
      Covers(Prompt() + out, encode, sizeVocab) &&
      (forall k :: 0 <= k < |fed| ==> fed[k] == InputWindow(Prompt() + out, encode, sizeVocab, k)) &&
      (forall k :: 0 <= k < |out| ==>
        out[k] in encode && IsChoice(stack(fed[..k + 1])[SizeBuffer - 1], draws[k], encode[out[k]]))
    }

    /** Feeding the window at the end of the output keeps `Generated`. */
    lemma FeedStep(stack: Stack, draws: seq<real>, out: string, fed: seq<seq<Row>>)
      requires Valid() && Emits(stack, sizeVocab) && |text| >= SizeBuffer - 1
      requires Generated(stack, draws, out, fed) && |fed| == |out|
      ensures Generated(stack, draws, out, fed + [InputWindow(Prompt() + out, encode, sizeVocab, |out|)])
    {
      var next := fed + [InputWindow(Prompt() + out, encode, sizeVocab, |out|)];
      forall k | 0 <= k < |out|
        ensures out[k] in encode && IsChoice(stack(next[..k + 1])[SizeBuffer - 1], draws[k], encode[out[k]])
      {
        assert next[..k + 1] == fed[..k + 1];
      }
    }

    /** Appending the character chosen from the pending window keeps `Generated`. */
    lemma ChooseStep(stack: Stack, draws: seq<real>, out: string, fed: seq<seq<Row>>, ix: nat)
      requires Valid() && Emits(stack, sizeVocab) && |text| >= SizeBuffer - 1
      requires Generated(stack, draws, out, fed) && |fed| == |out| + 1 && |out| < |draws|
      requires IsChoice(stack(fed)[SizeBuffer - 1], draws[|out|], ix)
      ensures ix < sizeVocab
      ensures Generated(stack, draws, out + [decode[ix]], fed)
    {
      var before := Prompt() + out;
      var after := before + [decode[ix]];
      assert Prompt() + (out + [decode[ix]]) == after;
      assert decode[ix] in encode && encode[decode[ix]] == ix;
      assert Covers(after, encode, sizeVocab);
      forall k | 0 <= k <= |out|
        ensures InputWindow(after, encode, sizeVocab, k) == InputWindow(before, encode, sizeVocab, k)
      {
        WindowOfPrefix(before, [decode[ix]], encode, sizeVocab, k);
      }
      assert fed[..|out| + 1] == fed;
    }

    /**
     * Appending `Decode[ix]` to the output moves the window at its end one
     * character on: the old window advanced by the one-hot code of `ix`.
     */
    lemma SlideOutput(out: string, ix: nat)
      requires Valid() && |text| >= SizeBuffer - 1
      requires ix < sizeVocab
      requires Covers(Prompt() + out, encode, sizeVocab)
      ensures Covers(Prompt() + (out + [decode[ix]]), encode, sizeVocab)
      ensures Advanced(InputWindow(Prompt() + out, encode, sizeVocab, |out|), OneHot(sizeVocab, ix))
           == InputWindow(Prompt() + (out + [decode[ix]]), encode, sizeVocab, |out| + 1)
    {
      var before := Prompt() + out;
      var after := before + [decode[ix]];
      assert Prompt() + (out + [decode[ix]]) == after;
      assert decode[ix] in encode && encode[decode[ix]] == ix;
      assert Covers(after, encode, sizeVocab);
      WindowOfPrefix(before, [decode[ix]], encode, sizeVocab, |out|);
      Slide(after, encode, sizeVocab, |out|);
    }

    /**
     * Writes `Decode[ix]` and advances the buffer by the one-hot code of
     * `ix`: the buffer becomes the window at the new end of the output.
     */
    method Emit(out: string, ix: nat, buffer: array<Row>) returns (out': string)
      requires Valid() && |text| >= SizeBuffer - 1
      requires ix < sizeVocab
      requires Covers(Prompt() + out, encode, sizeVocab)
      requires buffer[..] == InputWindow(Prompt() + out, encode, sizeVocab, |out|)
      modifies buffer
      ensures out' == out + [decode[ix]]
      ensures Covers(Prompt() + out', encode, sizeVocab)
      ensures buffer[..] == InputWindow(Prompt() + out', encode, sizeVocab, |out'|)
    {
      SlideOutput(out, ix);
      AdvanceBuffer(buffer, OneHot(sizeVocab, ix));
      out' := out + [decode[ix]];
    }

    /**
     * One turn of the generation loop: feed the window (resetting the stack
     * at the first turn), draw the next character from the last row of the
     * output, and slide the window on by it. `failed` when the draw runs off
     * the end of the row.
     */
    method GenerateStep(stack: Stack, draws: seq<real>, out: string, history: seq<seq<Row>>, buffer: array<Row>)
      returns (out': string, history': seq<seq<Row>>, failed: bool)
      requires Valid() && Emits(stack, sizeVocab) && |text| >= SizeBuffer - 1
      requires |out| < |draws| && |history| == |out|
      requires Generated(stack, draws, out, history)
      requires forall c :: c in out ==> c in decode
      requires buffer[..] == InputWindow(Prompt() + out, encode, sizeVocab, |out|)
      modifies buffer
      ensures Generated(stack, draws, out', history')
      ensures forall c :: c in out' ==> c in decode
      ensures failed ==>
        out' == out && |history'| == |out| + 1 && Exhausted(stack(history')[SizeBuffer - 1], draws[|out|])
      ensures !failed ==>
        |out'| == |out| + 1 && |history'| == |out'| &&
        buffer[..] == InputWindow(Prompt() + out', encode, sizeVocab, |out'|)
    {
      var reset := |out| == 0;
      FeedStep(stack, draws, out, history);
      history' := (if reset then [] else history) + [buffer[..]];
      var probs := stack(history');
      var choice := WeightedChoice(probs[SizeBuffer - 1], draws[|out|]);
      if choice.Fail? {
        return out, history', true;
      }
      var ix := choice.value;
      ChooseStep(stack, draws, out, history', ix);
      out' := Emit(out, ix, buffer);
      failed := false;
    }

    /**
     * Generates `sample_length` characters from the prompt. `draws` are the
     * successive values of `rnd.NextDouble()`. On failure `out` is what was
     * written before it, and `fed` holds the window whose draw failed.
     */
    method Generate(stack: Stack, draws: seq<real>) returns (out: string, failure: Option<Error>, ghost fed: seq<seq<Row>>)
      requires Valid()
      requires Emits(stack, sizeVocab)
      requires |draws| == SampleLength
      ensures failure.None? <==> |out| == SampleLength
      ensures forall c :: c in out ==> c in decode
      ensures |text| < SizeBuffer - 1 ==> out == [] && failure == Some(IndexOutOfRange)
      ensures |text| >= SizeBuffer - 1 ==>
        (failure == None || failure == Some(NotInDictionary)) &&
        Generated(stack, draws, out, fed) && |fed| == (if failure.None? then |out| else |out| + 1)
      ensures |text| >= SizeBuffer - 1 && failure.Some? ==>
        Exhausted(stack(fed)[SizeBuffer - 1], draws[|out|])
    {
      if |text| < SizeBuffer - 1 {
        return [], Some(IndexOutOfRange), [];
      }
      var buffer := FillBuffer(0);
      assert buffer[..] == InputWindow(Prompt() + [], encode, sizeVocab, 0) by {
        assert text == Prompt() + text[SizeBuffer - 1..];
        WindowOfPrefix(Prompt(), text[SizeBuffer - 1..], encode, sizeVocab, 0);
        assert Prompt() + [] == Prompt();
      }
      out := [];
      failure := None;
      var history: seq<seq<Row>> := [];
      for pos := 0 to SampleLength
        invariant |out| == pos && |history| == pos
        invariant Generated(stack, draws, out, history)
        invariant forall c :: c in out ==> c in decode
        invariant buffer[..] == InputWindow(Prompt() + out, encode, sizeVocab, pos)
      {
        var failed;
        out, history, failed := GenerateStep(stack, draws, out, history, buffer);
        if failed {
          failure := Some(NotInDictionary);
          fed := history;
          return;
        }
      }
      fed := history;
    }

    /** The epoch-boundary update of the learning rate, the three layers' rates and `loss_p`. */
    method AdjustLearningRate()
      modifies this`learningRate, this`rate1, this`rate2, this`rate3, this`lossP
      ensures learningRate == NextLearningRate(old(learningRate), old(lossP), loss)
      ensures rate1 == learningRate && rate2 == learningRate && rate3 == learningRate
      ensures lossP == NextTrend(old(lossP), loss)
    {
      if lossP - loss > 0.0 {
        learningRate := learningRate + learningRate * 0.01;
      } else {
        learningRate := learningRate - learningRate * 0.02;
      }
      rate1 := learningRate;
      rate2 := learningRate;
      rate3 := learningRate;
      lossP := lossP * 0.8 + loss * 0.2;
    }

    /**
     * The shape of what the sampling phase returns: every sample but a
     * failed last one has `sample_length` characters, all from `Decode`; a
     * failure is `IndexOutOfRange` exactly when the text is shorter than the
     * prompt, and otherwise an exhausted draw (`NotInDictionary`).
     */
    ghost predicate SamplesComplete(samples: seq<string>, failure: Option<Error>)
    {
      |samples| <= SampleCount &&
      (failure.None? ==> |samples| == SampleCount) &&
      (failure.Some? ==> |samples| >= 1) &&
      (forall g :: 0 <= g < |samples| ==> forall c :: c in samples[g] ==> c in decode) &&
      (forall g :: 0 <= g < |samples| ==>
        (|samples[g]| == SampleLength <==> failure.None? || g < |samples| - 1)) &&
      (|text| < SizeBuffer - 1 ==> samples == [[]] && failure == Some(IndexOutOfRange)) &&
      (|text| >= SizeBuffer - 1 ==> failure == None || failure == Some(NotInDictionary))
    }

    /**
     * Where the samples come from: sample `g` was generated with the draws
     * `draws[g]`, feeding the windows `feds[g]`, and a failure is the first
     * exhausted draw of the last sample.
     */
    ghost predicate SampledFrom(sample: Stack, draws: seq<seq<real>>, samples: seq<string>, failure: Option<Error>,
                                feds: seq<seq<seq<Row>>>)
      requires Valid() && Emits(sample, sizeVocab)
      requires |draws| == SampleCount && forall g :: 0 <= g < SampleCount ==> |draws[g]| == SampleLength
      requires SamplesComplete(samples, failure)
    {
      |feds| == |samples| &&
      (|text| >= SizeBuffer - 1 ==>
        (forall g :: 0 <= g < |samples| ==>
          Generated(sample, draws[g], samples[g], feds[g]) &&
          |feds[g]| == (if |samples[g]| == SampleLength then |samples[g]| else |samples[g]| + 1)) &&
        (failure.Some? ==>
          |samples[|samples| - 1]| < SampleLength &&
          Exhausted(sample(feds[|samples| - 1])[SizeBuffer - 1], draws[|samples| - 1][|samples[|samples| - 1]|])))
    }

    /**
     * The sampling phase of an epoch: `sample_count` samples, sample `g`
     * generated with the draws `draws[g]`, stopping at the first that fails.
     * `feds[g]` holds the windows fed while generating sample `g`.
     */
    method SampleAll(sample: Stack, draws: seq<seq<real>>)
      returns (samples: seq<string>, failure: Option<Error>, ghost feds: seq<seq<seq<Row>>>)
      requires Valid() && Emits(sample, sizeVocab)
      requires |draws| == SampleCount && forall g :: 0 <= g < SampleCount ==> |draws[g]| == SampleLength
      ensures SamplesComplete(samples, failure)
      ensures SampledFrom(sample, draws, samples, failure, feds)
    {
      samples := [];
      feds := [];
      for g := 0 to SampleCount
        invariant |samples| == g && |feds| == g
        invariant |text| < SizeBuffer - 1 ==> g == 0
        invariant forall h :: 0 <= h < g ==> |samples[h]| == SampleLength
        invariant forall h :: 0 <= h < g ==> forall c :: c in samples[h] ==> c in decode
        invariant |text| >= SizeBuffer - 1 ==> forall h :: 0 <= h < g ==>
          Generated(sample, draws[h], samples[h], feds[h]) && |feds[h]| == |samples[h]|
      {
        var s, err;
        ghost var fed;
        s, err, fed := Generate(sample, draws[g]);
        samples := samples + [s];
        feds := feds + [fed];
        if err.Some? {
          failure := err;
          return;
        }
      }
      failure := None;
    }

    /**
     * One turn of the outer `while (true)`: a pass over the text, then
     * `sample_count` samples, then the learning-rate update. A failed sample
     * ends the run before the update.
     */
    method RunEpoch(train: Stack, sample: Stack, draws: seq<seq<real>>, ln: real -> real, pow: (real, real) -> real)
      returns (windows: nat, samples: seq<string>, failure: Option<Error>, ghost feds: seq<seq<seq<Row>>>)
      requires Valid()
      requires EmitsSoftmax(train, sizeVocab) && Emits(sample, sizeVocab)
      requires |draws| == SampleCount && forall g :: 0 <= g < SampleCount ==> |draws[g]| == SampleLength
      modifies this`loss, this`perplexity, this`learningRate, this`rate1, this`rate2, this`rate3, this`lossP, this`epoch
      ensures windows == WindowCount(|text|, 0) && Steps(windows)
      ensures loss == SmoothAll(old(loss), LossSamples(train, ln, windows))
      ensures perplexity == SmoothAll(old(perplexity), PerplexitySamples(train, pow, windows))
      ensures SamplesComplete(samples, failure)
      ensures SampledFrom(sample, draws, samples, failure, feds)
      ensures failure.None? ==>
        learningRate == NextLearningRate(old(learningRate), old(lossP), loss) &&
        rate1 == learningRate && rate2 == learningRate && rate3 == learningRate &&
        lossP == NextTrend(old(lossP), loss) && epoch == old(epoch) + 1
      ensures failure.Some? ==>
        learningRate == old(learningRate) && lossP == old(lossP) && epoch == old(epoch) &&
        rate1 == old(rate1) && rate2 == old(rate2) && rate3 == old(rate3)
      ensures old(RatesAgree()) ==> RatesAgree()
    {
      windows := TrainEpoch(train, ln, pow);
      samples, failure, feds := SampleAll(sample, draws);
      if failure.None? {
        AdjustLearningRate();
        epoch := epoch + 1;
      }
    }
  }
}
