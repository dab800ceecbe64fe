/**
  The shape both scripts give their line filter: one ordered pass over the lines that
  classifies each one, drops the classified ones, keeps the rest in order, and stops for
  good at the first signature line. The two scripts classify differently (see `Heuristic`
  and `DeepClean`); only the pass itself is shared.
 */
module LineScan {
  import opened Text

  datatype LineKind = Header | Quote | Reply | Signature | Separator | Content

  /** The line starts, case-insensitively, with one of `fields` followed by a colon. */
  predicate StartsWithField(line: string, fields: seq<string>) {
    exists i :: 0 <= i < |fields| && CiPrefix(line, fields[i] + ":")
  }

  /** The scan loop: `continue` on every kind but `Content`, `break` on `Signature`. */
  function Scan(lines: seq<string>, kind: string -> LineKind): (kept: seq<string>)
    ensures |kept| <= |lines|
    ensures forall i :: 0 <= i < |kept| ==> kind(kept[i]) == Content
  {
    if |lines| == 0 then []
    else
      match kind(lines[0])
      case Signature => []
      case Content => [lines[0]] + Scan(lines[1..], kind)
      case _ => Scan(lines[1..], kind)
  }

  /** Index of the first signature line, or `|lines|`. */
  function StopIndex(lines: seq<string>, kind: string -> LineKind): (n: nat)
    ensures n <= |lines|
    ensures forall i :: 0 <= i < n ==> kind(lines[i]) != Signature
    ensures n < |lines| ==> kind(lines[n]) == Signature
  {
    if |lines| == 0 || kind(lines[0]) == Signature then 0
    else 1 + StopIndex(lines[1..], kind)
  }

  /** The `Content` lines of `lines`, in order. */
  function ContentLines(lines: seq<string>, kind: string -> LineKind): (kept: seq<string>)
  {
    if |lines| == 0 then []
    else (if kind(lines[0]) == Content then [lines[0]] else []) + ContentLines(lines[1..], kind)
  }

  /**
    The scan keeps exactly the `Content` lines that come before the first signature line,
    in their original order: nothing at or after that line survives.
   */
  lemma {:induction false} ScanIsContentBeforeStop(lines: seq<string>, kind: string -> LineKind)
    ensures Scan(lines, kind) == ContentLines(lines[..StopIndex(lines, kind)], kind)
  {
    if |lines| > 0 && kind(lines[0]) != Signature {
      ScanIsContentBeforeStop(lines[1..], kind);
      var n := StopIndex(lines, kind);
      assert lines[..n][1..] == lines[1..][..n - 1];
      assert lines[..n][0] == lines[0];
    }
  }

  /** The first index whose line satisfies `p`, or `|lines|`. */
  function FirstWhere(lines: seq<string>, p: string -> bool): (n: nat)
    ensures n <= |lines|
    ensures forall i :: 0 <= i < n ==> !p(lines[i])
    ensures n < |lines| ==> p(lines[n])
  {
    if |lines| == 0 || p(lines[0]) then 0 else 1 + FirstWhere(lines[1..], p)
  }

  /** When the signature kind is exactly the lines satisfying `p`, the scan stops at the first of them. */
  lemma StopAtFirst(lines: seq<string>, kind: string -> LineKind, p: string -> bool)
    requires forall i :: 0 <= i < |lines| ==> (kind(lines[i]) == Signature <==> p(lines[i]))
    ensures StopIndex(lines, kind) == FirstWhere(lines, p)
  {
  }
}
