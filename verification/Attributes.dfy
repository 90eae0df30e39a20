/** Attribute evaluation over exact reals. */
module Attributes {
  import opened Wire
  import opened Ordering

  const ADD := 0
  const MULTIPLY_BASE := 1
  const MULTIPLY_TOTAL := 2

  datatype Modifier = Modifier(amount: real, op: int)
  datatype Attribute = Attribute(name: string, base: real, modifiers: seq<Modifier>)

  /** Multiplication, kept apart so that proofs use only the laws below. */
  function Times(a: real, b: real): real {
    a * b
  }

  lemma TimesLaws(a: real, b: real, c: real)
    ensures Times(Times(a, b), c) == Times(a, Times(b, c))
    ensures Times(a, b) == Times(b, a)
    ensures Times(a, b + c) == Times(a, b) + Times(a, c)
    ensures Times(a, 1.0) == a
  {
  }

  function Amount(m: Modifier, op: int): real {
    if m.op == op then m.amount else 0.0
  }

  function Factor(m: Modifier): real {
    if m.op == MULTIPLY_TOTAL then 1.0 + m.amount else 1.0
  }

  /** The amounts of the modifiers of one operation, added up. */
  function Sum(ms: seq<Modifier>, op: int): real {
    if ms == [] then 0.0 else Sum(ms[..|ms| - 1], op) + Amount(ms[|ms| - 1], op)
  }

  /** One plus the amount, for each multiply-total modifier, multiplied. */
  function Product(ms: seq<Modifier>): real {
    if ms == [] then 1.0 else Times(Product(ms[..|ms| - 1]), Factor(ms[|ms| - 1]))
  }

  function ClosedForm(a: Attribute): real {
    Times(Times(a.base + Sum(a.modifiers, ADD), 1.0 + Sum(a.modifiers, MULTIPLY_BASE)), Product(a.modifiers))
  }

  function Evaluated(attrs: seq<Attribute>, name: string): Option<real> {
    if attrs == [] then None
    else if attrs[0].name == name then Some(ClosedForm(attrs[0]))
    else Evaluated(attrs[1..], name)
  }

  lemma NoModifiers()
    ensures Sum([], ADD) == 0.0 && Sum([], MULTIPLY_BASE) == 0.0 && Product([]) == 1.0
  {
  }

  lemma OneMoreModifier(ms: seq<Modifier>, i: nat, op: int)
    requires i < |ms|
    ensures Sum(ms[..i + 1], op) == Sum(ms[..i], op) + Amount(ms[i], op)
    ensures Product(ms[..i + 1]) == Times(Product(ms[..i]), Factor(ms[i]))
  {
    hide Times;
    assert ms[..i + 1][..i] == ms[..i];
  }

  /** One pass over the modifiers for each of the three kinds. */
  method ApplyModifiers(a: Attribute) returns (v: real)
    ensures v == ClosedForm(a)
  {
    hide Times, Sum, Product;
    var ms := a.modifiers;
    NoModifiers();
    v := a.base;
    for i := 0 to |ms|
      invariant v == a.base + Sum(ms[..i], ADD)
    {
      OneMoreModifier(ms, i, ADD);
      if ms[i].op == ADD {
        v := v + ms[i].amount;
      }
    }
    assert ms[..|ms|] == ms;
    var base := v;
    TimesLaws(base, 1.0, 0.0);
    for i := 0 to |ms|
      invariant v == Times(base, 1.0 + Sum(ms[..i], MULTIPLY_BASE))
    {
      OneMoreModifier(ms, i, MULTIPLY_BASE);
      TimesLaws(base, 1.0 + Sum(ms[..i], MULTIPLY_BASE), ms[i].amount);
      if ms[i].op == MULTIPLY_BASE {
        v := v + Times(base, ms[i].amount);
      }
    }
    var scaled := v;
    TimesLaws(scaled, 1.0, 1.0);
    for i := 0 to |ms|
      invariant v == Times(scaled, Product(ms[..i]))
    {
      OneMoreModifier(ms, i, MULTIPLY_TOTAL);
      TimesLaws(scaled, Product(ms[..i]), 1.0 + ms[i].amount);
      TimesLaws(Product(ms[..i]), 1.0, 1.0);
      if ms[i].op == MULTIPLY_TOTAL {
        v := Times(v, 1.0 + ms[i].amount);
      }
    }
  }

  /** The value of the first attribute of the name, if there is one. */
  method AttributeValue(attrs: seq<Attribute>, name: string) returns (value: Option<real>)
    ensures value == Evaluated(attrs, name)
  {
    for i := 0 to |attrs|
      invariant Evaluated(attrs, name) == Evaluated(attrs[i..], name)
    {
      assert attrs[i..][1..] == attrs[i + 1..];
      if attrs[i].name != name {
        continue;
      }
      var v := ApplyModifiers(attrs[i]);
      return Some(v);
    }
    return None;
  }

  // ---------------------------------------------------------------------------------
  // What one modifier does
  // ---------------------------------------------------------------------------------

  function Value(base: real, ms: seq<Modifier>): real {
    ClosedForm(Attribute("", base, ms))
  }

  /** The modifiers but for those that multiply the base. */
  function Unscaled(ms: seq<Modifier>): seq<Modifier> {
    if ms == [] then []
    else
      var last := ms[|ms| - 1];
      Unscaled(ms[..|ms| - 1]) + if last.op == 1 then [] else [last]
  }

  lemma OneMore(ms: seq<Modifier>, m: Modifier, op: int)
    ensures Sum(ms + [m], op) == Sum(ms, op) + Amount(m, op)
    ensures Product(ms + [m]) == Times(Product(ms), Factor(m))
  {
    hide Times;
    assert (ms + [m])[..|ms|] == ms;
  }

  lemma UnscaledLast(init: seq<Modifier>, last: Modifier)
    ensures Unscaled(init + [last]) == if last.op == 1 then Unscaled(init) else Unscaled(init) + [last]
  {
    assert (init + [last])[..|init|] == init;
    assert Unscaled(init) + [] == Unscaled(init);
  }

  lemma {:induction false} UnscaledParts(ms: seq<Modifier>)
    ensures Sum(Unscaled(ms), ADD) == Sum(ms, ADD) && Sum(Unscaled(ms), MULTIPLY_BASE) == 0.0
    ensures Product(Unscaled(ms)) == Product(ms)
  {
    if ms == [] {
      NoModifiers();
    } else {
      hide Times, Sum, Product, Unscaled;
      var init, last := ms[..|ms| - 1], ms[|ms| - 1];
      UnscaledParts(init);
      assert ms == init + [last];
      UnscaledLast(init, last);
      OneMore(init, last, ADD);
      OneMore(Unscaled(init), last, ADD);
      OneMore(Unscaled(init), last, MULTIPLY_BASE);
      TimesLaws(Product(init), 1.0, 0.0);
    }
  }

  lemma TimesIs(a: real, b: real)
    ensures Times(a, b) == a * b
  {
  }

  lemma NoEffect(base: real)
    ensures Value(base, []) == base
  {
    hide Times;
    NoModifiers();
    TimesLaws(base, 1.0, 1.0);
  }

  lemma ScalingEffect(base: real, ms: seq<Modifier>, x: real)
    ensures Value(base, ms + [Modifier(x, 1)]) == Value(base, ms) + Times(x, Value(base, Unscaled(ms)))
  {
    hide Times, Sum, Product;
    var m := Modifier(x, 1);
    OneMore(ms, m, ADD);
    OneMore(ms, m, MULTIPLY_BASE);
    UnscaledParts(ms);
    TimesLaws(Product(ms), 1.0, 1.0);
    var b, s, p := base + Sum(ms, ADD), 1.0 + Sum(ms, MULTIPLY_BASE), Product(ms);
    assert Value(base, ms + [m]) == Times(Times(b, s + x), p);
    assert Value(base, Unscaled(ms)) == Times(b, p) by { TimesLaws(b, 1.0, 1.0); }
    ShareOf(b, s, x, p);
  }

  lemma ShareOf(b: real, s: real, x: real, p: real)
    ensures Times(Times(b, s + x), p) == Times(Times(b, s), p) + Times(x, Times(b, p))
  {
    hide Times;
    var whole, share := Times(b, s), Times(b, x);
    TimesLaws(b, s, x);
    assert Times(b, s + x) == whole + share;
    TimesLaws(p, whole, share);
    assert Times(p, whole + share) == Times(p, whole) + Times(p, share);
    TimesLaws(whole + share, p, 0.0);
    TimesLaws(whole, p, 0.0);
    TimesLaws(share, p, 0.0);
    TimesLaws(x, b, p);
    TimesLaws(b, x, 0.0);
    assert Times(share, p) == Times(x, Times(b, p));
  }

  lemma OtherEffects(base: real, ms: seq<Modifier>, x: real, op: int)
    ensures Value(base, ms + [Modifier(x, 0)]) == Value(base + x, ms)
    ensures Value(base, ms + [Modifier(x, 2)]) == Times(Value(base, ms), 1.0 + x)
    ensures op < 0 || op > 2 ==> Value(base, ms + [Modifier(x, op)]) == Value(base, ms)
  {
    hide Times, Sum, Product;
    TimesLaws(Product(ms), 1.0, 1.0);
    OneMore(ms, Modifier(x, 0), ADD);
    OneMore(ms, Modifier(x, 0), MULTIPLY_BASE);
    OneMore(ms, Modifier(x, 2), ADD);
    OneMore(ms, Modifier(x, 2), MULTIPLY_BASE);
    OneMore(ms, Modifier(x, op), ADD);
    OneMore(ms, Modifier(x, op), MULTIPLY_BASE);
    TimesLaws(Times(base + Sum(ms, ADD), 1.0 + Sum(ms, MULTIPLY_BASE)), Product(ms), 1.0 + x);
  }

  /**
    * Operation 0 acts as a raised base; operation 1 adds its share of what the attribute would
    * be worth without any operation 1; operation 2 scales the whole; no other does anything.
    * With no modifiers the value is the base, so this fixes every value.
    */
  lemma ModifierEffects(base: real, ms: seq<Modifier>, x: real, op: int)
    ensures Value(base, []) == base
    ensures Value(base, ms + [Modifier(x, 0)]) == Value(base + x, ms)
    ensures Value(base, ms + [Modifier(x, 1)]) == Value(base, ms) + x * Value(base, Unscaled(ms))
    ensures Value(base, ms + [Modifier(x, 2)]) == Value(base, ms) * (1.0 + x)
    ensures op < 0 || op > 2 ==> Value(base, ms + [Modifier(x, op)]) == Value(base, ms)
  {
    hide *;
    NoEffect(base);
    ScalingEffect(base, ms, x);
    OtherEffects(base, ms, x, op);
    TimesIs(Value(base, ms), 1.0 + x);
    TimesIs(x, Value(base, Unscaled(ms)));
  }

  /** The attribute found is the first of the name. */
  lemma {:induction false} FirstOfName(attrs: seq<Attribute>, name: string, i: nat)
    requires i <= |attrs| && (forall k :: 0 <= k < i ==> attrs[k].name != name)
    requires i < |attrs| ==> attrs[i].name == name
    ensures Evaluated(attrs, name) == if i < |attrs| then Some(Value(attrs[i].base, attrs[i].modifiers)) else None
  {
    hide Times, Sum, Product;
    if i == 0 {
    } else {
      FirstOfName(attrs[1..], name, i - 1);
    }
  }

  // ---------------------------------------------------------------------------------
  // The order of the modifiers
  // ---------------------------------------------------------------------------------

  lemma {:induction false} SumDetach(ms: seq<Modifier>, op: int, k: nat)
    requires k < |ms|
    ensures Sum(ms, op) == Amount(ms[k], op) + Sum(Without(ms, k), op)
  {
    var n := |ms| - 1;
    if k == n {
      assert Without(ms, k) == ms[..n];
    } else {
      WithoutLast(ms, k);
      SumDetach(ms[..n], op, k);
    }
  }

  lemma {:induction false} ProductDetach(ms: seq<Modifier>, k: nat)
    requires k < |ms|
    ensures Product(ms) == Times(Factor(ms[k]), Product(Without(ms, k)))
  {
    hide Times;
    var n := |ms| - 1;
    if k == n {
      assert Without(ms, k) == ms[..n];
      TimesLaws(Product(ms[..n]), Factor(ms[n]), 1.0);
    } else {
      WithoutLast(ms, k);
      ProductDetach(ms[..n], k);
      TimesLaws(Factor(ms[k]), Product(Without(ms[..n], k)), Factor(ms[n]));
    }
  }

  lemma SumOrderBlind(s: seq<Modifier>, t: seq<Modifier>, op: int)
    requires multiset(s) == multiset(t)
    ensures Sum(s, op) == Sum(t, op)
  {
    var fold := (ms: seq<Modifier>) => Sum(ms, op);
    var step := (m: Modifier, x: real) => Amount(m, op) + x;
    forall ms: seq<Modifier>, k | 0 <= k < |ms| ensures fold(ms) == step(ms[k], fold(Without(ms, k))) {
      SumDetach(ms, op, k);
    }
    OrderBlind(fold, step, s, t);
  }

  lemma ProductOrderBlind(s: seq<Modifier>, t: seq<Modifier>)
    requires multiset(s) == multiset(t)
    ensures Product(s) == Product(t)
  {
    hide Times;
    var fold := (ms: seq<Modifier>) => Product(ms);
    var step := (m: Modifier, x: real) => Times(Factor(m), x);
    forall ms: seq<Modifier>, k | 0 <= k < |ms| ensures fold(ms) == step(ms[k], fold(Without(ms, k))) {
      ProductDetach(ms, k);
    }
    OrderBlind(fold, step, s, t);
  }

  /** Attribute lists that differ only in the order of each attribute's modifiers. */
  ghost predicate Reordered(a: seq<Attribute>, b: seq<Attribute>) {
    && |a| == |b|
    && forall i :: 0 <= i < |a| ==>
         a[i].name == b[i].name && a[i].base == b[i].base && multiset(a[i].modifiers) == multiset(b[i].modifiers)
  }

  /** The order modifiers are listed in does not change any attribute's value. */
  lemma {:induction false} ModifierOrderUnseen(a: seq<Attribute>, b: seq<Attribute>, name: string)
    requires Reordered(a, b)
    ensures Evaluated(a, name) == Evaluated(b, name)
  {
    if a == [] {
    } else {
      if a[0].name == name {
        hide Times;
        SumOrderBlind(a[0].modifiers, b[0].modifiers, ADD);
        SumOrderBlind(a[0].modifiers, b[0].modifiers, MULTIPLY_BASE);
        ProductOrderBlind(a[0].modifiers, b[0].modifiers);
      } else {
        ModifierOrderUnseen(a[1..], b[1..], name);
      }
    }
  }
}
