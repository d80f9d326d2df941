/** The per-character format buffer of one line (QSyntaxHighlighter's formatChanges)
    and the clamped setFormat calls that write it. */
module Formats {
  import opened Strings

  /** The QTextCharFormat members of the highlighter, one tag per format object.
      DefaultFormat is the empty format Qt fills the buffer with before each line. */
  datatype Format =
    | DefaultFormat
    | BoldFormat | BolderFormat | ItalicFormat | ItalicerFormat | StrikethroughFormat
    | LinkFormat | ListFormat | TaskDoneFormat | TaskWipFormat | TaskTodoFormat
    | CodeBlockFormat | MathBlockFormat
    | HtmlTagFormat | HtmlAttrNameFormat | HtmlAttValueFormat | HtmlEntityFormat | HtmlCommentFormat

  /** One call setFormat(start, count, format). */
  datatype Write = Write(start: int, count: int, format: Format)

  /** Character `i` (inside the buffer) is rewritten by `w`: Qt ignores a start that is
      negative or past the buffer and cuts the end at the buffer's length, so a character
      inside the buffer is written exactly when it lies in [start, start + count). */
  predicate Covers(w: Write, i: int)
  {
    0 <= w.start <= i < w.start + w.count
  }

  function Defaults(n: nat): (buf: seq<Format>)
    ensures |buf| == n && forall i :: 0 <= i < n ==> buf[i] == DefaultFormat
  {
    seq(n, _ => DefaultFormat)
  }

  /** QSyntaxHighlighter::setFormat on a buffer: nothing happens when start is outside
      [0, |buf|), otherwise [start, min(start + count, |buf|)) gets the format. */
  function ApplyFormat(buf: seq<Format>, w: Write): (r: seq<Format>)
    ensures |r| == |buf|
    ensures forall i :: 0 <= i < |buf| ==> r[i] == if Covers(w, i) then w.format else buf[i]
  {
    if w.start < 0 || w.start >= |buf| || w.count <= 0 then buf
    else
      var end := if w.start + w.count < |buf| then w.start + w.count else |buf|;
      buf[..w.start] + seq(end - w.start, _ => w.format) + buf[end..]
  }

  /** The buffer after a series of setFormat calls, in order. */
  function ApplyWrites(buf: seq<Format>, ws: seq<Write>): (r: seq<Format>)
    ensures |r| == |buf|
    decreases |ws|
  {
    if ws == [] then buf else ApplyFormat(ApplyWrites(buf, ws[..|ws| - 1]), ws[|ws| - 1])
  }

  /** Call `k` of `ws` covers character `i` and no later call does. */
  predicate LastCovering(ws: seq<Write>, i: int, k: int)
  {
    0 <= k < |ws| && Covers(ws[k], i) && forall k' :: k < k' < |ws| ==> !Covers(ws[k'], i)
  }

  /** The index of the last call in `ws` that covers character `i`, or -1. */
  function LastCoverIndex(ws: seq<Write>, i: int): (k: int)
    ensures k == -1 || LastCovering(ws, i, k)
    ensures k == -1 ==> forall k' :: 0 <= k' < |ws| ==> !Covers(ws[k'], i)
    decreases |ws|
  {
    if ws == [] then -1
    else if Covers(ws[|ws| - 1], i) then |ws| - 1
    else
      var k := LastCoverIndex(ws[..|ws| - 1], i);
      assert forall k' :: 0 <= k' < |ws| - 1 ==> ws[..|ws| - 1][k'] == ws[k'];
      k
  }

  /** The format of the last call in `ws` that covers character `i`, if any. */
  function LastCover(ws: seq<Write>, i: int): (r: Option<Format>)
    ensures r.None? <==> forall k :: 0 <= k < |ws| ==> !Covers(ws[k], i)
    ensures r.Some? ==> exists k :: LastCovering(ws, i, k) && ws[k].format == r.value
  {
    var k := LastCoverIndex(ws, i);
    if k == -1 then None else Some(ws[k].format)
  }

  /** Last writer wins: each character ends with the format of the last call covering it,
      and keeps its earlier format when no call covers it. */
  lemma {:induction false} LastWriterWins(buf: seq<Format>, ws: seq<Write>, i: int)
    requires 0 <= i < |buf|
    ensures ApplyWrites(buf, ws)[i] == match LastCover(ws, i) case Some(f) => f case None => buf[i]
    decreases |ws|
  {
    if ws != [] {
      LastWriterWins(buf, ws[..|ws| - 1], i);
    }
  }

  /** Applying two series of calls one after the other is applying their concatenation. */
  lemma {:induction false} ApplyWritesAppend(buf: seq<Format>, a: seq<Write>, b: seq<Write>)
    ensures ApplyWrites(buf, a + b) == ApplyWrites(ApplyWrites(buf, a), b)
    decreases |b|
  {
    if b == [] {
      assert a + b == a;
    } else {
      assert (a + b)[..|a + b| - 1] == a + b[..|b| - 1];
      ApplyWritesAppend(buf, a, b[..|b| - 1]);
    }
  }

  /** A call in a later series overrides every call of an earlier one on the same character. */
  lemma {:induction false} LastCoverAppend(a: seq<Write>, b: seq<Write>, i: int)
    ensures LastCover(a + b, i) == if LastCover(b, i).Some? then LastCover(b, i) else LastCover(a, i)
    decreases |b|
  {
    if b == [] {
      assert a + b == a;
    } else {
      assert (a + b)[..|a + b| - 1] == a + b[..|b| - 1];
      LastCoverAppend(a, b[..|b| - 1], i);
    }
  }
}
