/** NUL-terminated character buffers, as the library's hand-written string helpers see them. */
module CString {

  const NUL: char := '\0'

  /** Position of the first `c` in `s`, or `|s|` when `s` has none. */
  function IndexOf(s: seq<char>, c: char): (r: nat)
    ensures r <= |s|
    ensures r < |s| ==> s[r] == c
    ensures forall j :: 0 <= j < r ==> s[j] != c
  {
    if s == [] then 0
    else if s[0] == c then 0
    else 1 + IndexOf(s[1..], c)
  }

  /** The three properties of IndexOf determine it. */
  lemma IndexOfUnique(s: seq<char>, c: char, r: nat)
    requires r <= |s|
    requires r < |s| ==> s[r] == c
    requires forall j :: 0 <= j < r ==> s[j] != c
    ensures IndexOf(s, c) == r
  {
  }

  /** A buffer a C string function may scan: it holds a terminator. */
  predicate Terminated(buf: seq<char>)
  {
    NUL in buf
  }

  /** The string a terminated buffer holds: everything before the first NUL. */
  function Text(buf: seq<char>): (t: string)
    ensures NUL !in t
  {
    buf[..IndexOf(buf, NUL)]
  }

  /** `t` cut just before its first line feed. */
  function UpToNewline(t: string): (u: string)
    ensures '\n' !in u
  {
    t[..IndexOf(t, '\n')]
  }

  /** The buffer after remove_newline: the first line feed that comes before the
      terminator is overwritten by NUL; a buffer without one is left alone. The buffer
      keeps its length, every cell but the first line feed is kept, and a cell that
      changes was a line feed and becomes NUL. */
  function RemovedNewline(buf: seq<char>): (r: seq<char>)
    ensures |r| == |buf|
    ensures forall j :: 0 <= j < |buf| && j != IndexOf(buf, '\n') ==> r[j] == buf[j]
    ensures forall j :: 0 <= j < |buf| && r[j] != buf[j] ==> r[j] == NUL && buf[j] == '\n'
  {
    var z := IndexOf(buf, NUL);
    var n := IndexOf(buf, '\n');
    if n < z then buf[n := NUL] else buf
  }

  /** remove_newline: scans up to the terminator and cuts the string at its first line feed. */
  method RemoveNewline(s: array?<char>)
    requires s != null ==> Terminated(s[..])
    modifies s
    ensures s != null ==> s[..] == RemovedNewline(old(s[..]))
  {
    if s == null {
      return;
    }
    var i := 0;
    while s[i] != NUL
      invariant 0 <= i <= IndexOf(s[..], NUL) < s.Length
      invariant forall j :: 0 <= j < i ==> s[j] != '\n'
      invariant s[..] == old(s[..])
      decreases s.Length - i
    {
      if s[i] == '\n' {
        IndexOfUnique(s[..], '\n', i);
        s[i] := NUL;
        return;
      }
      i := i + 1;
    }
    IndexOfUnique(s[..], NUL, i);
  }

  /** The string held after remove_newline is the old string up to its first line feed. */
  lemma RemovedNewlineTruncates(buf: seq<char>)
    requires Terminated(buf)
    ensures Terminated(RemovedNewline(buf))
    ensures Text(RemovedNewline(buf)) == UpToNewline(Text(buf))
  {
  }

  /** A string without a line feed is left exactly as it was. */
  lemma NoNewlineUnchanged(buf: seq<char>)
    requires Terminated(buf)
    requires '\n' !in Text(buf)
    ensures RemovedNewline(buf) == buf
  {
  }

  /** Applying remove_newline twice is the same as applying it once. */
  lemma RemovedNewlineIdempotent(buf: seq<char>)
    requires Terminated(buf)
    ensures RemovedNewline(RemovedNewline(buf)) == RemovedNewline(buf)
  {
  }
}
