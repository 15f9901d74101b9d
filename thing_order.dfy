/**
 * The derived `Ord` of `Thing`: the table names compared as Rust compares
 * strings (byte by byte, a proper prefix first), and on equal table names
 * the ids compared by `Id`'s own ordering.
 */
module ThingOrder {
  import opened Bytes
  import opened Things

  datatype Ordering = Less | Equal | Greater

  function Reverse(o: Ordering): Ordering {
    match o
    case Less => Greater
    case Equal => Equal
    case Greater => Less
  }

  /** `Id`'s `cmp`, which is not part of this model. */
  type IdCmp = (Id, Id) -> Ordering

  /** `str::cmp`: lexicographic on bytes; it gives Equal exactly for equal strings. */
  function CompareText(a: Text, b: Text): (r: Ordering)
    ensures r == Equal <==> a == b
    decreases |a|
  {
    if |a| == 0 then (if |b| == 0 then Equal else Less)
    else if |b| == 0 then Greater
    else if a[0] < b[0] then Less
    else if a[0] > b[0] then Greater
    else
      assert a == [a[0]] + a[1..] && b == [b[0]] + b[1..];
      CompareText(a[1..], b[1..])
  }

  /**
   * The derived `cmp`: table names first, then ids, in declaration order.
   * Different table names decide the order whatever the ids are; only on
   * equal table names do the ids count.
   */
  function Compare(a: Thing, b: Thing, idCmp: IdCmp): (r: Ordering)
    ensures a.tb != b.tb ==> r == CompareText(a.tb, b.tb) && r != Equal
    ensures a.tb == b.tb ==> r == idCmp(a.id, b.id)
  {
    match CompareText(a.tb, b.tb)
    case Equal => idCmp(a.id, b.id)
    case o => o
  }

  lemma {:induction false} CompareTextReverse(a: Text, b: Text)
    ensures CompareText(b, a) == Reverse(CompareText(a, b))
    decreases |a|
  {
    if |a| > 0 && |b| > 0 && a[0] == b[0] {
      CompareTextReverse(a[1..], b[1..]);
    }
  }

  lemma {:induction false} CompareTextTransitive(a: Text, b: Text, c: Text)
    requires CompareText(a, b) == Less && CompareText(b, c) == Less
    ensures CompareText(a, c) == Less
    decreases |a|
  {
    if |a| > 0 && a[0] == b[0] && b[0] == c[0] {
      CompareTextTransitive(a[1..], b[1..], c[1..]);
    }
  }

  /** Two values compare Equal exactly when they are equal, given that ids do. */
  lemma CompareEqual(a: Thing, b: Thing, idCmp: IdCmp)
    requires idCmp(a.id, b.id) == Equal <==> a.id == b.id
    ensures Compare(a, b, idCmp) == Equal <==> a == b
  {
  }

  /** Swapping the operands reverses the outcome, given that it does for the ids. */
  lemma CompareReverse(a: Thing, b: Thing, idCmp: IdCmp)
    requires idCmp(b.id, a.id) == Reverse(idCmp(a.id, b.id))
    ensures Compare(b, a, idCmp) == Reverse(Compare(a, b, idCmp))
  {
    CompareTextReverse(a.tb, b.tb);
  }

  /** Less is transitive, given that it is for the ids. */
  lemma CompareTransitive(a: Thing, b: Thing, c: Thing, idCmp: IdCmp)
    requires idCmp(a.id, b.id) == Less && idCmp(b.id, c.id) == Less ==> idCmp(a.id, c.id) == Less
    requires Compare(a, b, idCmp) == Less && Compare(b, c, idCmp) == Less
    ensures Compare(a, c, idCmp) == Less
  {
    if CompareText(a.tb, b.tb) == Less && CompareText(b.tb, c.tb) == Less {
      CompareTextTransitive(a.tb, b.tb, c.tb);
    }
  }
}
