/**
  How `merge_sort` cuts its input into chunks.

  The outer loop runs while the input's end-of-file flag is clear; each pass
  runs the inner loop, which performs at most `max_lines` `getline` calls and
  stops early once one of them sets the flag. Blank lines are read (and count
  towards the limit) even though they are then skipped.
 */
module Chunking {
  import opened Lines

  /** The lines read by each pass of the outer loop, given the series of reads the
      input yields (the last of which sets the end-of-file flag). */
  function Chunks(lines: seq<string>, maxLines: nat): (cs: seq<seq<string>>)
    requires |lines| >= 1 && maxLines >= 1
    ensures |cs| >= 1
    ensures forall k :: 0 <= k < |cs| ==> 1 <= |cs[k]| <= maxLines
    ensures forall k :: 0 <= k < |cs| - 1 ==> |cs[k]| == maxLines
    ensures Flatten(cs) == lines
    ensures (|cs| - 1) * maxLines < |lines| <= |cs| * maxLines
    decreases |lines|
  {
    if |lines| <= maxLines then
      [lines]
    else
      var tail := Chunks(lines[maxLines..], maxLines);
      var cs := [lines[..maxLines]] + tail;
      assert cs[1..] == tail;
      assert lines == lines[..maxLines] + lines[maxLines..];
      cs
  }
}
