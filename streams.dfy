/**
 * The output stream of a save, as a fixed-length sequence of bytes that can be
 * overwritten in place after a seek.
 */
module Streams {

  newtype byte = x: int | 0 <= x < 256

  /**
   * The bytes of `s` after seeking to `at` and writing `data`, when the write
   * ends inside the stream: the length is unchanged, the written window holds
   * `data` and every other byte is what it was.
   */
  function Overwrite(s: seq<byte>, at: nat, data: seq<byte>): (r: seq<byte>)
    requires at + |data| <= |s|
    ensures |r| == |s|
    ensures r[at..at + |data|] == data
    ensures forall i :: 0 <= i < |s| && !(at <= i < at + |data|) ==> r[i] == s[i]
  {
    s[..at] + data + s[at + |data|..]
  }

  /** A write keeps every window it does not touch. */
  lemma OverwriteKeepsWindow(s: seq<byte>, at: nat, data: seq<byte>, lo: nat, hi: nat)
    requires at + |data| <= |s| && lo <= hi <= |s|
    requires hi <= at || at + |data| <= lo
    ensures Overwrite(s, at, data)[lo..hi] == s[lo..hi]
  {
    var r := Overwrite(s, at, data);
    assert forall i :: lo <= i < hi ==> r[i] == s[i];
  }

  /** Setting `Position` to `at` and writing `data`: an in-place patch of the stream. */
  method WriteAt(stream: array<byte>, at: nat, data: seq<byte>)
    requires at + |data| <= stream.Length
    modifies stream
    ensures stream[..] == Overwrite(old(stream[..]), at, data)
  {
    for k := 0 to |data|
      invariant forall i :: 0 <= i < stream.Length ==>
        stream[i] == if at <= i < at + k then data[i - at] else old(stream[i])
    {
      stream[at + k] := data[k];
    }
    ghost var r := Overwrite(old(stream[..]), at, data);
    assert forall i :: 0 <= i < stream.Length ==> stream[..][i] == r[i] by {
      forall i | 0 <= i < stream.Length
        ensures stream[..][i] == r[i]
      {
        if at <= i < at + |data| {
          assert r[at..at + |data|][i - at] == data[i - at];
        }
      }
    }
  }
}
