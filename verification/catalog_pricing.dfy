/**
 * A catalog pricing row: the price of one device, part or service over a
 * validity window, with an optional fixed or percentage discount, and the
 * derived effective price. Money is an exact `real`; dates are ticks.
 */
module PricingModel {
  import opened Wrappers

  /**
   * The catalog item type enumeration. A C# enum field can hold any integer,
   * so a value outside the three named members is `Unnamed`.
   */
  datatype ItemType = Device | Part | Service | Unnamed(raw: int)

  datatype CatalogPricing = CatalogPricing(
    id: int,
    itemType: ItemType,
    basePrice: real,
    discountAmount: Option<real>,
    discountPercentage: Option<int>,
    effectiveDate: int,
    expirationDate: Option<int>,
    deviceId: Option<int>,
    partId: Option<int>,
    serviceId: Option<int>)

  /** `Math.Max(0, x)`. */
  function AtLeastZero(x: real): (r: real)
    ensures r >= 0.0 && r >= x
    ensures r == 0.0 || r == x
  {
    if x < 0.0 then 0.0 else x
  }

  /**
   * The effective price: the base price less the fixed discount when there is
   * one, otherwise less the percentage discount, and never below zero.
   */
  function EffectivePrice(p: CatalogPricing): (r: real)
    ensures r >= 0.0
    ensures p.discountAmount.Some? ==> r == AtLeastZero(p.basePrice - p.discountAmount.value)
    ensures p.discountAmount.None? && p.discountPercentage.Some? ==>
      r == AtLeastZero(p.basePrice * (100 - p.discountPercentage.value) as real / 100.0)
    ensures p.discountAmount.None? && p.discountPercentage.None? ==> r == AtLeastZero(p.basePrice)
  {
    var price := p.basePrice;
    var discounted :=
      if p.discountAmount.Some? then price - p.discountAmount.value
      else if p.discountPercentage.Some? then price - price * p.discountPercentage.value as real / 100.0
      else price;
    AtLeastZero(discounted)
  }

  /** With a fixed discount set, the percentage plays no part, whatever its value. */
  lemma AmountTakesPrecedence(p: CatalogPricing, percentage: Option<int>)
    requires p.discountAmount.Some?
    ensures EffectivePrice(p.(discountPercentage := percentage)) == EffectivePrice(p)
  {
  }

  /** The effective price is a function of the base price and the two discounts alone. */
  lemma PriceDependsOnlyOnPriceFields(p: CatalogPricing, q: CatalogPricing)
    requires p.basePrice == q.basePrice
    requires p.discountAmount == q.discountAmount
    requires p.discountPercentage == q.discountPercentage
    ensures EffectivePrice(p) == EffectivePrice(q)
  {
  }

  /** With a non-negative base price and non-negative discounts, a discount never raises the price. */
  lemma PriceAtMostBase(p: CatalogPricing)
    requires p.basePrice >= 0.0
    requires p.discountAmount.Some? ==> p.discountAmount.value >= 0.0
    requires p.discountPercentage.Some? ==> p.discountPercentage.value >= 0
    ensures EffectivePrice(p) <= p.basePrice
  {
    if p.discountAmount.None? && p.discountPercentage.Some? {
      var pct := p.discountPercentage.value as real;
      ProductNonNegative(p.basePrice, pct);
      assert p.basePrice * pct / 100.0 >= 0.0;
    }
  }

  lemma ProductNonNegative(a: real, b: real)
    requires a >= 0.0 && b >= 0.0
    ensures a * b >= 0.0
  {
    if b > 0.0 {
      assert a * b >= a * 0.0;
    }
  }

  /** A base price of 100 at 25% off costs 75. */
  lemma QuarterOffHundred(p: CatalogPricing)
    requires p.basePrice == 100.0
    requires p.discountAmount.None? && p.discountPercentage == Some(25)
    ensures EffectivePrice(p) == 75.0
  {
  }

  /** A fixed discount larger than the price brings it to zero: 10 less 50 costs 0. */
  lemma DiscountBeyondPrice(p: CatalogPricing)
    requires p.basePrice == 10.0 && p.discountAmount == Some(50.0)
    ensures EffectivePrice(p) == 0.0
  {
  }
}
