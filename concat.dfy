/** Concatenation of a sequence of text pieces, the way the sniffer builds
    its dumps by appending one piece after another to a QString. The lemmas
    here say where each piece lands in the result; they do not depend on
    what the pieces hold. */
module Concat {
  import opened Text

  /** The pieces one after another. */
  function Join(parts: seq<string>): string
  {
    if parts == [] then "" else Join(parts[..|parts| - 1]) + parts[|parts| - 1]
  }

  /** Appending one more piece appends it to the joined text. */
  lemma JoinSnoc(parts: seq<string>, p: string)
    ensures Join(parts + [p]) == Join(parts) + p
  {
    assert (parts + [p])[..|parts|] == parts;
  }

  /** Joining one more piece of the same sequence. */
  lemma JoinTake(parts: seq<string>, k: nat)
    requires k < |parts|
    ensures Join(parts[..k + 1]) == Join(parts[..k]) + parts[k]
  {
    assert parts[..k + 1][..k] == parts[..k];
  }

  /** The first k pieces joined are a prefix of all of them joined. */
  lemma {:induction false} JoinPrefix(parts: seq<string>, k: nat)
    requires k <= |parts|
    ensures Join(parts[..k]) <= Join(parts)
    decreases |parts|
  {
    if k < |parts| {
      var n := |parts| - 1;
      JoinPrefix(parts[..n], k);
      assert parts[..n][..k] == parts[..k];
    } else {
      assert parts[..k] == parts;
    }
  }

  /** Pieces of width w each join to w characters per piece. */
  lemma {:induction false} JoinUniformLength(parts: seq<string>, w: nat)
    requires forall i :: 0 <= i < |parts| ==> |parts[i]| == w
    ensures |Join(parts)| == w * |parts|
    decreases |parts|
  {
    if parts != [] {
      var n := |parts| - 1;
      JoinUniformLength(parts[..n], w);
      assert w * |parts| == w * n + w;
    }
  }

  /** Piece k sits right after the first k pieces joined. */
  lemma JoinPieceAt(parts: seq<string>, k: nat)
    requires k < |parts|
    ensures OccursAt(Join(parts), parts[k], |Join(parts[..k])|)
  {
    JoinTake(parts, k);
    JoinPrefix(parts, k + 1);
  }

  /** When the pieces before piece k all have width w, piece k starts at
      character w * k of the joined text. */
  lemma JoinAt(parts: seq<string>, k: nat, w: nat)
    requires k < |parts|
    requires forall i :: 0 <= i < k ==> |parts[i]| == w
    ensures OccursAt(Join(parts), parts[k], w * k)
  {
    JoinUniformLength(parts[..k], w);
    JoinPieceAt(parts, k);
  }

  /** A character in none of the pieces is not in the joined text. */
  lemma {:induction false} JoinExcludes(parts: seq<string>, c: char)
    requires forall i :: 0 <= i < |parts| ==> c !in parts[i]
    ensures c !in Join(parts)
    decreases |parts|
  {
    if parts != [] {
      JoinExcludes(parts[..|parts| - 1], c);
    }
  }

  /** Nothing but the empty sequence joins to the empty text, as long as
      every piece is non-empty. */
  lemma JoinEmpty(parts: seq<string>)
    requires forall i :: 0 <= i < |parts| ==> parts[i] != ""
    ensures Join(parts) == "" <==> parts == []
  {
  }

  /** An occurrence inside an occurrence. */
  lemma OccursWithin(s: string, t: string, u: string, i: nat, j: nat)
    requires OccursAt(s, t, i) && OccursAt(t, u, j)
    ensures OccursAt(s, u, i + j)
  {
    forall k | 0 <= k < |u|
      ensures s[i + j..i + j + |u|][k] == u[k]
    {
      assert s[i + j + k] == s[i..i + |t|][j + k] == t[j + k] == t[j..j + |u|][k];
    }
  }

  /** An occurrence at the head of an occurrence. */
  lemma OccursAtHead(s: string, t: string, u: string, i: nat)
    requires OccursAt(s, t, i) && OccursAt(t, u, 0)
    ensures OccursAt(s, u, i)
  {
    OccursWithin(s, t, u, i, 0);
  }

  /** Appending keeps every occurrence. */
  lemma OccursInPrefix(s: string, t: string, u: string, i: nat)
    requires OccursAt(s, u, i)
    ensures OccursAt(s + t, u, i)
  {
    assert (s + t)[i..i + |u|] == s[i..i + |u|];
  }

  /** The middle of three texts joined. */
  lemma Middle(a: string, b: string, c: string)
    ensures OccursAt(a + b + c, a, 0)
    ensures OccursAt(a + b + c, b, |a|)
    ensures OccursAt(a + b + c, c, |a| + |b|)
  {
    assert (a + b + c)[0..|a|] == a;
  }
}
