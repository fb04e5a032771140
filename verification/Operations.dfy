/**
  Text operations of the operational-transformation core (src/common/ot/opereation.cpp).
  Positions and lengths are `nat`: sums of positions and lengths are assumed not to wrap `size_t`.
 */
module Operations {
  import opened Wrappers

  /** An insertion, or a deletion together with its recorded text ("" when nothing is recorded). */
  datatype Edit =
    | Insert(pos: nat, text: string)
    | Delete(pos: nat, len: nat, deleted: string)

  predicate Applicable(e: Edit, d: string) {
    match e
    case Insert(p, _) => p <= |d|
    case Delete(p, n, _) => p + n <= |d|
  }

  /** `d` with the `n` characters at `p` replaced by `t`. */
  function Splice(d: string, p: nat, n: nat, t: string): string
    requires p + n <= |d|
  {
    d[..p] + t + d[p + n..]
  }

  /** Character by character: what stood before, the text put in, what stood after. */
  lemma SpliceChars(d: string, p: nat, n: nat, t: string)
    requires p + n <= |d|
    ensures var r := Splice(d, p, n, t);
            && |r| == |d| - n + |t|
            && (forall i | 0 <= i < p :: r[i] == d[i])
            && (forall i | 0 <= i < |t| :: r[p + i] == t[i])
            && (forall i | p + n <= i < |d| :: r[i - n + |t|] == d[i])
  {
  }

  /** The document after applying `e`; None when the operation reports failure. */
  function Apply(e: Edit, d: string): Option<string> {
    if !Applicable(e, d) then None
    else match e
      case Insert(p, t) => Some(Splice(d, p, 0, t))
      case Delete(p, n, _) => Some(Splice(d, p, n, ""))
  }

  /** Applying a deletion without recorded text records the text it removes. */
  function Filled(e: Edit, d: string): Edit
    requires Applicable(e, d)
  {
    if e.Delete? && e.deleted == "" then e.(deleted := d[e.pos..e.pos + e.len]) else e
  }

  function TransformInsert(e: Edit, other: Edit): Edit
    requires e.Insert?
  {
    match other
    case Insert(q, u) =>
      if q <= e.pos then Insert(e.pos + |u|, e.text) else e
    case Delete(q, n, _) =>
      if q < e.pos then
        if q + n <= e.pos then Insert(e.pos - n, e.text) else Insert(q, e.text)
      else e
  }

  function TransformDelete(e: Edit, other: Edit): Edit
    requires e.Delete?
  {
    var start, end := e.pos, e.pos + e.len;
    match other
    case Insert(q, u) =>
      if q <= start then Delete(start + |u|, e.len, e.deleted)
      else if q < end then Delete(start, e.len + |u|, e.deleted)
      else e
    case Delete(otherStart, n, _) =>
      var otherEnd := otherStart + n;
      if otherEnd <= start then
        Delete(start - n, e.len, e.deleted)
      else if otherStart <= start && otherEnd >= end then
        Delete(otherStart, 0, "")
      else if otherStart <= start && otherEnd < end then
        var newLen := end - otherEnd;
        Delete(otherStart, newLen,
               if |e.deleted| >= newLen then e.deleted[|e.deleted| - newLen..] else "")
      else if otherStart > start && otherStart < end && otherEnd >= end then
        var newLen := otherStart - start;
        Delete(start, newLen, if |e.deleted| >= newLen then e.deleted[..newLen] else "")
      else if otherStart > start && otherEnd < end then
        Delete(start, e.len - n,
               if |e.deleted| >= e.len
               then e.deleted[..otherStart - start] + e.deleted[otherEnd - start..]
               else "")
      else
        e
  }

  /** `e` rewritten to apply after `other`, where both were made against the same document. */
  function Transform(e: Edit, other: Edit): Edit {
    if e.Insert? then TransformInsert(e, other) else TransformDelete(e, other)
  }

  // A deletion without recorded text has no inverse: the code throws.
  function Inverse(e: Edit): Option<Edit> {
    match e
    case Insert(p, t) => Some(Delete(p, |t|, t))
    case Delete(p, _, t) => if t == "" then None else Some(Insert(p, t))
  }

  // ---------------------------------------------------------------- TP1

  predicate StrictlyInside(e: Edit, del: Edit) {
    e.Insert? && del.Delete? && del.pos < e.pos < del.pos + del.len
  }

  /** The pairs of concurrent edits on which the two execution orders agree. */
  predicate Compatible(a: Edit, b: Edit) {
    match (a, b)
    case (Insert(p, t), Insert(q, u)) => p != q || t + u == u + t
    case (Insert(p, t), Delete(_, _, _)) => !StrictlyInside(a, b) || t == ""
    case (Delete(_, _, _), Insert(q, u)) => !StrictlyInside(b, a) || u == ""
    case (Delete(_, _, _), Delete(_, _, _)) => true
  }

  /** Every transformed operation stays applicable. */
  lemma TransformedApplies(d: string, a: Edit, b: Edit)
    requires Applicable(a, d) && Applicable(b, d)
    ensures Applicable(Transform(b, a), Apply(a, d).value)
  {
  }

  ghost predicate Converge(d: string, a: Edit, b: Edit)
    requires Applicable(a, d) && Applicable(b, d)
  {
    Apply(Transform(b, a), Apply(a, d).value) == Apply(Transform(a, b), Apply(b, d).value)
  }

  lemma InsertInsertTP1(d: string, a: Edit, b: Edit)
    requires a.Insert? && b.Insert? && Applicable(a, d) && Applicable(b, d)
    ensures Converge(d, a, b) <==> Compatible(a, b)
    decreases a.pos > b.pos
  {
    if a.pos > b.pos {
      InsertInsertTP1(d, b, a);
    } else {
      var ab := Apply(Transform(b, a), Apply(a, d).value).value;
      var ba := Apply(Transform(a, b), Apply(b, d).value).value;
      var p, q := a.pos, b.pos;
      if p < q {
        assert ab == d[..p] + a.text + d[p..q] + b.text + d[q..];
        assert ba == d[..p] + a.text + d[p..q] + b.text + d[q..];
      } else {
        assert ab == d[..p] + (a.text + b.text) + d[p..];
        assert ba == d[..p] + (b.text + a.text) + d[p..];
        var n := |a.text| + |b.text|;
        assert ab[p..p + n] == a.text + b.text;
        assert ba[p..p + n] == b.text + a.text;
      }
    }
  }

  // Two splices of disjoint ranges commute once the later one is shifted.
  lemma SplicesCommute(d: string, p: nat, m: nat, t: string, q: nat, n: nat, u: string)
    requires p + m <= q && q + n <= |d|
    ensures Splice(Splice(d, q, n, u), p, m, t) == Splice(Splice(d, p, m, t), q - m + |t|, n, u)
  {
    var mid := d[p + m..q];
    assert Splice(d, q, n, u) == d[..p] + d[p..p + m] + mid + u + d[q + n..];
    assert Splice(d, p, m, t) == d[..p] + t + mid + d[q..q + n] + d[q + n..];
    assert Splice(Splice(d, q, n, u), p, m, t) == d[..p] + t + mid + u + d[q + n..];
    assert Splice(Splice(d, p, m, t), q - m + |t|, n, u) == d[..p] + t + mid + u + d[q + n..];
  }

  // Cutting a range that contains the place of an earlier splice removes the spliced text too.
  lemma CutAround(d: string, p: nat, m: nat, q: nat, n: nat, u: string)
    requires p <= q && q + n <= p + m <= |d|
    ensures Splice(Splice(d, q, n, u), p, m - n + |u|, "") == Splice(d, p, m, "")
  {
    assert Splice(d, q, n, u) == d[..p] + (d[p..q] + u + d[q + n..p + m]) + d[p + m..];
  }

  // A cut may be made in two steps: first its head or its tail, then the rest.
  lemma CutInTwo(d: string, p: nat, m: nat, n: nat)
    requires p + m + n <= |d|
    ensures Splice(Splice(d, p, m, ""), p, n, "") == Splice(d, p, m + n, "")
    ensures Splice(Splice(d, p + m, n, ""), p, m, "") == Splice(d, p, m + n, "")
  {
    assert Splice(d, p, m, "") == d[..p] + d[p + m..];
    assert Splice(d, p + m, n, "") == d[..p + m] + d[p + m + n..];
  }

  // A slice of the document right or left of a splice.
  lemma SliceBeside(d: string, q: nat, n: nat, u: string, lo: nat, hi: nat)
    requires q + n <= |d| && lo <= hi <= |d|
    ensures hi <= q ==> Splice(d, q, n, u)[lo..hi] == d[lo..hi]
    ensures q + n <= lo ==> Splice(d, q, n, u)[lo - n + |u|..hi - n + |u|] == d[lo..hi]
  {
  }

  lemma InsertDeleteTP1(d: string, a: Edit, b: Edit)
    requires a.Insert? && b.Delete? && Applicable(a, d) && Applicable(b, d)
    ensures Converge(d, a, b) <==> Compatible(a, b)
  {
    var p, s, n := a.pos, b.pos, b.len;
    if p <= s {
      SplicesCommute(d, p, 0, a.text, s, n, "");
    } else if s + n <= p {
      SplicesCommute(d, s, n, "", p, 0, a.text);
    } else {
      CutAround(d, s, n, p, 0, a.text);
      assert Apply(Transform(b, a), Apply(a, d).value) == Some(Splice(d, s, n, ""));
      SpliceAtCut(d, s, n, a.text);
      assert Apply(Transform(a, b), Apply(b, d).value) == Some(Splice(d, s, n, a.text));
      assert |Splice(d, s, n, a.text)| == |Splice(d, s, n, "")| + |a.text|;
    }
  }

  lemma SpliceAtCut(d: string, s: nat, n: nat, t: string)
    requires s + n <= |d|
    ensures Splice(Splice(d, s, n, ""), s, 0, t) == Splice(d, s, n, t)
  {
    assert Splice(d, s, n, "") == d[..s] + d[s + n..];
  }

  /** Where position `x` ends up once deletion `a` is carried out: it loses the deleted characters left of it. */
  function Survive(a: Edit, x: nat): nat
    requires a.Delete?
  {
    if x <= a.pos then x else if x <= a.pos + a.len then a.pos else x - a.len
  }

  /** The six branches of the deletion transform act on both endpoints through one map. */
  lemma TransformedSpan(c: Edit, a: Edit)
    requires c.Delete? && a.Delete?
    ensures var r := Transform(c, a);
            r.Delete? && r.pos == Survive(a, c.pos) && r.pos + r.len == Survive(a, c.pos + c.len)
  {
  }

  lemma DeleteDeleteTP1(d: string, a: Edit, b: Edit)
    requires a.Delete? && b.Delete? && Applicable(a, d) && Applicable(b, d)
    ensures Converge(d, a, b)
    decreases a.pos > b.pos
  {
    var s, aEnd, q, bEnd := a.pos, a.pos + a.len, b.pos, b.pos + b.len;
    TransformedSpan(a, b);
    TransformedSpan(b, a);
    if s > q {
      DeleteDeleteTP1(d, b, a);
    } else {
      CutsAgree(d, s, a.len, q, b.len, Transform(a, b), Transform(b, a));
    }
  }

  lemma CutsAgree(d: string, s: nat, m: nat, q: nat, n: nat, a': Edit, b': Edit)
    requires s <= q && s + m <= |d| && q + n <= |d|
    requires a'.Delete? && b'.Delete?
    requires a'.pos == s && s + a'.len == Survive(Delete(q, n, ""), s + m)
    requires b'.pos == Survive(Delete(s, m, ""), q) && b'.pos + b'.len == Survive(Delete(s, m, ""), q + n)
    ensures Apply(b', Splice(d, s, m, "")) == Apply(a', Splice(d, q, n, ""))
  {
    if s + m <= q {
      SplicesCommute(d, s, m, "", q, n, "");
    } else if q + n <= s + m {
      CutAround(d, s, m, q, n, "");
      CutInTwo(d, s, m, 0);
    } else {
      CutInTwo(d, s, m, q + n - (s + m));
      CutInTwo(d, s, q - s, n);
    }
  }

  /**
    TP1, exactly: executing `a` then `b'` and `b` then `a'` gives one document if and only if
    the pair is compatible.
   */
  lemma TP1(d: string, a: Edit, b: Edit)
    requires Applicable(a, d) && Applicable(b, d)
    ensures Applicable(Transform(b, a), Apply(a, d).value)
    ensures Applicable(Transform(a, b), Apply(b, d).value)
    ensures Converge(d, a, b) <==> Compatible(a, b)
  {
    TransformedApplies(d, a, b);
    TransformedApplies(d, b, a);
    match (a, b) {
      case (Insert(_, _), Insert(_, _)) => InsertInsertTP1(d, a, b);
      case (Insert(_, _), Delete(_, _, _)) => InsertDeleteTP1(d, a, b);
      case (Delete(_, _, _), Insert(_, _)) => InsertDeleteTP1(d, b, a);
      case (Delete(_, _, _), Delete(_, _, _)) => DeleteDeleteTP1(d, a, b);
    }
  }
}
