/** Values shared by every revision of the package cache: bytes, optional
    values, the string normalisation helpers (Python's `strip` and `lower`
    on ASCII text) and the fixed-size chunk reader that every stream body
    runs over a stored or downloaded artifact. */
module Common {

  newtype byte = x: int | 0 <= x < 256

  /** The raw bytes of an artifact (a GridFS file, a download, an upload). */
  type Bytes = seq<byte>

  datatype Option<T> = None | Some(value: T)

  /** What running a stream body gave: it raised (no URL, a failed URL
      assertion or a failed download), or the chunks it yielded. */
  datatype StreamRun =
    | RunRaised
    | Chunks(chunks: seq<Bytes>)

  /** The ASCII part of Python 3's default `strip` set (`str.isspace`):
      space, the controls 9..13 (tab, newline, vertical tab, form feed,
      carriage return) and the separators 28..31. */
  predicate IsSpace(c: char) {
    c == ' ' || 9 <= c as int <= 13 || 28 <= c as int <= 31
  }

  /** `s.lstrip()`. */
  function StripLeft(s: string): string {
    if s != [] && IsSpace(s[0]) then StripLeft(s[1..]) else s
  }

  /** `s.rstrip()`. */
  function StripRight(s: string): string {
    if s != [] && IsSpace(s[|s| - 1]) then StripRight(s[..|s| - 1]) else s
  }

  /** `lstrip` drops the leading whitespace and nothing else. */
  lemma {:induction false} StripLeftCorrect(s: string)
    ensures var r := StripLeft(s);
      && |r| <= |s| && r == s[|s| - |r|..]
      && (forall i :: 0 <= i < |s| - |r| ==> IsSpace(s[i]))
      && (r == [] || !IsSpace(r[0]))
  {
    if s != [] && IsSpace(s[0]) {
      var t := s[1..];
      StripLeftCorrect(t);
      var r := StripLeft(t);
      assert StripLeft(s) == r;
      assert s[|s| - |r|..] == t[|t| - |r|..];
      forall i | 0 <= i < |s| - |r| ensures IsSpace(s[i]) {
        if i > 0 {
          assert s[i] == t[i - 1];
        }
      }
    }
  }

  /** `rstrip` drops the trailing whitespace and nothing else. */
  lemma {:induction false} StripRightCorrect(s: string)
    ensures var r := StripRight(s);
      && |r| <= |s| && r == s[..|r|]
      && (forall i :: |r| <= i < |s| ==> IsSpace(s[i]))
      && (r == [] || !IsSpace(r[|r| - 1]))
  {
    if s != [] && IsSpace(s[|s| - 1]) {
      var t := s[..|s| - 1];
      StripRightCorrect(t);
      var r := StripRight(t);
      assert StripRight(s) == r;
      assert s[..|r|] == t[..|r|];
      forall i | |r| <= i < |s| ensures IsSpace(s[i]) {
        if i < |s| - 1 {
          assert s[i] == t[i];
        }
      }
    }
  }

  /** `s.strip()`. */
  function Strip(s: string): string {
    StripRight(StripLeft(s))
  }

  /** A string that neither starts nor ends with whitespace. */
  predicate Trimmed(s: string) {
    s == [] || (!IsSpace(s[0]) && !IsSpace(s[|s| - 1]))
  }

  lemma StripTrimmed(s: string)
    ensures Trimmed(Strip(s))
  {
    var l := StripLeft(s);
    var r := StripRight(l);
    StripLeftCorrect(s);
    StripRightCorrect(l);
    if r != [] {
      assert r[0] == l[0];
    }
  }

  lemma StripOfTrimmed(s: string)
    requires Trimmed(s)
    ensures Strip(s) == s
  {
  }

  /** Stripping twice is stripping once. */
  lemma StripIdempotent(s: string)
    ensures Strip(Strip(s)) == Strip(s)
  {
    StripTrimmed(s);
    StripOfTrimmed(Strip(s));
  }

  /** ASCII case folding of one character, as `str.lower` does on ASCII. */
  function LowerChar(c: char): char {
    if 'A' <= c <= 'Z' then (c as int + 32) as char else c
  }

  /** `s.lower()`. */
  function Lower(s: string): string {
    seq(|s|, i requires 0 <= i < |s| => LowerChar(s[i]))
  }

  lemma LowerIdempotent(s: string)
    ensures Lower(Lower(s)) == Lower(s)
  {
  }

  /** Folding case never turns whitespace into text or text into whitespace. */
  lemma LowerKeepsTrimmed(s: string)
    requires Trimmed(s)
    ensures Trimmed(Lower(s))
  {
  }

  /** A lower-cased string has no upper-case ASCII letter. */
  lemma LowerHasNoCapitals(s: string)
    ensures forall i :: 0 <= i < |Lower(s)| ==> !('A' <= Lower(s)[i] <= 'Z')
  {
  }

  /** The chunks of a stream, joined back together. */
  function Flatten(chunks: seq<Bytes>): Bytes {
    if chunks == [] then [] else Flatten(chunks[..|chunks| - 1]) + chunks[|chunks| - 1]
  }

  /** A stream of `size`-byte reads: every chunk is non-empty, at most
      `size` long, and all but the last are exactly `size` long. */
  predicate ChunkedBy(chunks: seq<Bytes>, size: nat) {
    && (forall i :: 0 <= i < |chunks| ==> 0 < |chunks[i]| <= size)
    && (forall i :: 0 <= i < |chunks| - 1 ==> |chunks[i]| == size)
  }

  /** The stream loop: read `size` bytes at a time from the start of
      `blob` and yield each read until a read comes back empty. */
  method ReadChunks(blob: Bytes, size: nat) returns (chunks: seq<Bytes>)
    requires size > 0
    ensures Flatten(chunks) == blob
    ensures ChunkedBy(chunks, size)
  {
    chunks := [];
    var pos := 0;
    while true
      invariant 0 <= pos <= |blob|
      invariant Flatten(chunks) == blob[..pos]
      invariant ChunkedBy(chunks, size)
      invariant pos < |blob| ==> forall i :: 0 <= i < |chunks| ==> |chunks[i]| == size
      decreases |blob| - pos
    {
      var end := if pos + size <= |blob| then pos + size else |blob|;
      var data := blob[pos..end];
      if data == [] {
        break;
      }
      assert (chunks + [data])[..|chunks|] == chunks;
      assert blob[..end] == blob[..pos] + data;
      chunks := chunks + [data];
      pos := end;
    }
    assert blob[..pos] == blob;
  }
}
