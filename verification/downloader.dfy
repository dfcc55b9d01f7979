/** The read loop of `download_episode`: chunks are read until an empty one,
    each is written straight away, and `downloaded` counts the bytes. The
    HTTP request, the file and the progress line are not modelled. */
module Downloader {

  newtype byte = x: int | 0 <= x < 256

  /** The size `response.read` is asked for on every call. */
  const ChunkSize: nat := 8192

  /** The chunks laid end to end. */
  function Concat(chunks: seq<seq<byte>>): seq<byte> {
    if |chunks| == 0 then [] else Concat(chunks[..|chunks| - 1]) + chunks[|chunks| - 1]
  }

  /** The number of reads before the first empty one; reads past the end of
      `results` are empty. */
  function ReadsBeforeEnd(results: seq<seq<byte>>): (k: nat)
    ensures k <= |results|
    ensures forall i :: 0 <= i < k ==> results[i] != []
    ensures k < |results| ==> results[k] == []
  {
    if |results| == 0 || results[0] == [] then 0 else 1 + ReadsBeforeEnd(results[1..])
  }

  /** Runs the loop over the successive results of
      `response.read(ChunkSize)`, returning the bytes written to the file and
      the final `downloaded` counter. */
  method CopyChunks(results: seq<seq<byte>>) returns (written: seq<byte>, downloaded: nat)
    requires forall i :: 0 <= i < |results| ==> |results[i]| <= ChunkSize
    ensures written == Concat(results[..ReadsBeforeEnd(results)])
    ensures downloaded == |written|
    ensures downloaded <= ChunkSize * ReadsBeforeEnd(results)
  {
    written := [];
    downloaded := 0;
    var i := 0;
    while true
      invariant 0 <= i <= |results|
      invariant forall k :: 0 <= k < i ==> results[k] != []
      invariant written == Concat(results[..i])
      invariant downloaded == |written|
      invariant downloaded <= ChunkSize * i
      decreases |results| - i
    {
      var chunk := if i < |results| then results[i] else [];
      if chunk == [] {
        break;
      }
      assert results[..i + 1][..i] == results[..i];
      written := written + chunk;
      downloaded := downloaded + |chunk|;
      i := i + 1;
    }
    assert i == ReadsBeforeEnd(results);
  }
}
