/**
 * The sliding window of one-hot rows fed to the layer stack. A window is a
 * `double[][]` of `size_buffer` rows; row 0 is never filled and stays `null`,
 * rows 1 .. size_buffer-1 each hold the one-hot code of one character.
 */
module Window {

  /** `size_buffer`: rows per window. */
  const SizeBuffer: nat := 24

  type Vector = seq<real>

  /** One row of a `double[][]`: `null`, or a vector of doubles. */
  datatype Row = Null | Vec(v: Vector)

  /** `new double[n]` with a 1 written at index `k`. */
  function OneHot(n: nat, k: nat): (r: Vector)
    requires k < n
    ensures |r| == n && r[k] == 1.0
    ensures forall i :: 0 <= i < n && i != k ==> r[i] == 0.0
  {
    seq(n, i => if i == k then 1.0 else 0.0)
  }

  /** Every character of `s` has a code, and every code is below `v`. */
  ghost predicate Covers(s: string, encode: map<char, nat>, v: nat)
  {
    forall i :: 0 <= i < |s| ==> s[i] in encode && encode[s[i]] < v
  }

  /**
   * The window over `s` starting at `offset`, as `FillBuffer` builds it:
   * row 0 `null`, row p the one-hot code of `s[offset + p - 1]`.
   */
  ghost function InputWindow(s: string, encode: map<char, nat>, v: nat, offset: nat): (w: seq<Row>)
    requires Covers(s, encode, v)
    requires offset + SizeBuffer - 1 <= |s|
    ensures |w| == SizeBuffer && w[0] == Null
    ensures forall p :: 1 <= p < SizeBuffer ==> w[p] == Vec(OneHot(v, encode[s[offset + p - 1]]))
  {
    seq(SizeBuffer, p requires 0 <= p < SizeBuffer =>
      if p == 0 then Null else Vec(OneHot(v, encode[s[offset + p - 1]])))
  }

  /**
   * What `AdvanceBuffer` leaves behind: row 0 and the rows past the window
   * untouched, rows 1 .. size_buffer-2 each take the row after them, and the
   * last row of the window is `vx`.
   */
  ghost function Advanced(w: seq<Row>, vx: Vector): (r: seq<Row>)
    requires |w| >= SizeBuffer
    ensures |r| == |w| && r[0] == w[0] && r[SizeBuffer - 1] == Vec(vx)
    ensures forall b :: 1 <= b < SizeBuffer - 1 ==> r[b] == w[b + 1]
    ensures forall b :: SizeBuffer <= b < |w| ==> r[b] == w[b]
  {
    w[..1] + w[2..SizeBuffer] + [Vec(vx)] + w[SizeBuffer..]
  }

  /** Reads the next character into the buffer, in place. */
  method AdvanceBuffer(buffer: array<Row>, vx: Vector)
    requires buffer.Length >= SizeBuffer
    modifies buffer
    ensures buffer[..] == Advanced(old(buffer[..]), vx)
  {
    for b := 1 to SizeBuffer - 1
      invariant forall k :: 1 <= k < b ==> buffer[k] == old(buffer[k + 1])
      invariant forall k :: b <= k < buffer.Length ==> buffer[k] == old(buffer[k])
      invariant buffer[0] == old(buffer[0])
    {
      buffer[b] := buffer[b + 1];
    }
    buffer[SizeBuffer - 1] := Vec(vx);
  }

  /**
   * Filling at `offset` and then advancing with the code of the character
   * after the window gives the window one character further on: row t of the
   * advanced buffer is the character that follows row t of the filled one.
   */
  lemma Slide(s: string, encode: map<char, nat>, v: nat, offset: nat)
    requires Covers(s, encode, v)
    requires offset + SizeBuffer <= |s|
    ensures Advanced(InputWindow(s, encode, v, offset), OneHot(v, encode[s[offset + SizeBuffer - 1]]))
         == InputWindow(s, encode, v, offset + 1)
  {
    var a := Advanced(InputWindow(s, encode, v, offset), OneHot(v, encode[s[offset + SizeBuffer - 1]]));
    var w := InputWindow(s, encode, v, offset + 1);
    forall t | 0 <= t < SizeBuffer
      ensures a[t] == w[t]
    {
      if 1 <= t < SizeBuffer - 1 {
        assert a[t] == InputWindow(s, encode, v, offset)[t + 1];
      }
    }
  }

  /** A window over a prefix of `s` is the same window over `s`. */
  lemma WindowOfPrefix(s: string, more: string, encode: map<char, nat>, v: nat, offset: nat)
    requires Covers(s + more, encode, v)
    requires offset + SizeBuffer - 1 <= |s|
    ensures Covers(s, encode, v)
    ensures InputWindow(s + more, encode, v, offset) == InputWindow(s, encode, v, offset)
  {
    assert forall i :: 0 <= i < |s| ==> s[i] == (s + more)[i];
    var a := InputWindow(s + more, encode, v, offset);
    var b := InputWindow(s, encode, v, offset);
    forall t | 0 <= t < SizeBuffer
      ensures a[t] == b[t]
    {
    }
  }
}
