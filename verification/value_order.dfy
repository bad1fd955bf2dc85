/** Column values of stored rows and the total order `ORDER BY` uses on them. */
module ValueOrder {

  /** A column value. `VNull` is SQL `NULL`, which is also Python's `None`. */
  datatype Val = VNull | VBool(b: bool) | VInt(i: int) | VStr(s: string)

  /** Lexicographic order on strings, by code point. */
  predicate StrLe(a: string, b: string)
    decreases |a|
  {
    |a| == 0 || (|b| > 0 && (a[0] < b[0] || (a[0] == b[0] && StrLe(a[1..], b[1..]))))
  }

  lemma {:induction false} StrLeTotal(a: string, b: string)
    ensures StrLe(a, b) || StrLe(b, a)
    decreases |a|
  {
    if |a| > 0 && |b| > 0 && a[0] == b[0] {
      StrLeTotal(a[1..], b[1..]);
    }
  }

  lemma {:induction false} StrLeTransitive(a: string, b: string, c: string)
    requires StrLe(a, b) && StrLe(b, c)
    ensures StrLe(a, c)
    decreases |a|
  {
    if |a| > 0 && a[0] == b[0] && b[0] == c[0] {
      StrLeTransitive(a[1..], b[1..], c[1..]);
    }
  }

  /** Values of different kinds compare by kind: NULL first, then booleans,
      integers and strings. */
  function Rank(v: Val): nat
  {
    match v
    case VNull => 0
    case VBool(_) => 1
    case VInt(_) => 2
    case VStr(_) => 3
  }

  predicate Le(a: Val, b: Val)
  {
    if Rank(a) != Rank(b) then Rank(a) < Rank(b)
    else match (a, b)
      case (VBool(x), VBool(y)) => !x || y
      case (VInt(x), VInt(y)) => x <= y
      case (VStr(x), VStr(y)) => StrLe(x, y)
      case _ => true
  }

  lemma LeTotal(a: Val, b: Val)
    ensures Le(a, b) || Le(b, a)
  {
    if a.VStr? && b.VStr? {
      StrLeTotal(a.s, b.s);
    }
  }

  lemma LeTransitive(a: Val, b: Val, c: Val)
    requires Le(a, b) && Le(b, c)
    ensures Le(a, c)
  {
    if a.VStr? && b.VStr? && c.VStr? {
      StrLeTransitive(a.s, b.s, c.s);
    }
  }
}
