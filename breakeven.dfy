/** Break-even model of a company's single product whose monthly demand is
    given by a quadratic selling-price function (SPF) of the selling price:
    a model of the Python class `SingleProductSPF` in
    notebooks/breakevendebug.py.

    Every quantity is an exact `real`; the model does not reproduce the
    rounding of the binary floating point the Python class computes in. */
module BreakEven {

  /** The six parameters of the model. The parameter defaults are those of
      the Python class's constructor, so `SingleProductSpf()` is the default model
      and `SingleProductSpf(fixedCost := f)` overrides one argument, as a
      keyword argument does. Being a value, a model never changes after it is
      built: every output below is a function of these six fields alone. */
  datatype SingleProductSpf = SingleProductSpf(
    fixedCost: real := 5000.0,    // fixed manufacturing cost per month
    varCost: real := 100.0,       // variable cost per unit
    sellingPrice: real := 115.0,  // selling price per unit
    spfConstant: real := 4900.0,  // constant term of the demand function
    spfLinear: real := -35.0,     // coefficient of the selling price
    spfQuadratic: real := 0.06)   // coefficient of the squared selling price
  {
    /** Units demanded at the selling price S: D = q*S^2 + l*S + c. */
    function CalculateDemand(): (d: real) {
      spfQuadratic * (sellingPrice * sellingPrice) + spfLinear * sellingPrice + spfConstant
    }

    /** Variable cost of producing the demanded units. */
    function TotalVarCost(): (c: real) {
      CalculateDemand() * varCost
    }

    /** Sales revenue of the demanded units. */
    function TotalRevenue(): (r: real) {
      CalculateDemand() * sellingPrice
    }

    /** Fixed cost plus the variable cost of the demanded units. */
    function TotalCost(): (c: real) {
      fixedCost + TotalVarCost()
    }

    /** Revenue minus cost; equivalently, every demanded unit contributes its
        margin S - V, and the fixed cost is paid once. */
    function Profit(): (p: real)
      ensures p == CalculateDemand() * (sellingPrice - varCost) - fixedCost
    {
      TotalRevenue() - TotalCost()
    }

    /** The demand at which the unit margin exactly covers the fixed cost;
        defined only when a unit sells for more than it costs to make. */
    function BreakEvenDemand(): (q: real)
      requires varCost < sellingPrice
      ensures q * (sellingPrice - varCost) == fixedCost
      ensures fixedCost >= 0.0 ==> q >= 0.0
    {
      fixedCost / (sellingPrice - varCost)
    }
  }

  function Square(x: real): (y: real) { x * x }

  /** The constructor keeps each argument, unchanged, in the field of the same name. */
  lemma ConstructorKeepsArguments(f: real, v: real, s: real, c: real, l: real, q: real)
    ensures var m := SingleProductSpf(f, v, s, c, l, q);
      && m.fixedCost == f && m.varCost == v && m.sellingPrice == s
      && m.spfConstant == c && m.spfLinear == l && m.spfQuadratic == q
  {
  }

  /** The default model: its parameters, the demand 0.06*115^2 - 35*115 + 4900
      and the four money outputs computed from it. */
  lemma DefaultOutputs()
    ensures SingleProductSpf() == SingleProductSpf(5000.0, 100.0, 115.0, 4900.0, -35.0, 0.06)
    ensures SingleProductSpf().CalculateDemand() == 1668.5
    ensures SingleProductSpf().TotalVarCost() == 166850.0
    ensures SingleProductSpf().TotalRevenue() == 191877.5
    ensures SingleProductSpf().TotalCost() == 171850.0
    ensures SingleProductSpf().Profit() == 20027.5
  {
  }

  /** Raising the fixed cost by k, all else unchanged, lowers profit by exactly
      k and leaves demand, variable cost and revenue as they were. */
  lemma FixedCostSensitivity(m: SingleProductSpf, k: real)
    ensures var m' := m.(fixedCost := m.fixedCost + k);
      && m'.CalculateDemand() == m.CalculateDemand()
      && m'.TotalVarCost() == m.TotalVarCost()
      && m'.TotalRevenue() == m.TotalRevenue()
      && m'.TotalCost() == m.TotalCost() + k
      && m'.Profit() == m.Profit() - k
  {
  }

  /** Raising the unit variable cost by k, all else unchanged, raises total
      variable cost and total cost, and lowers profit, by k per demanded unit. */
  lemma VarCostSensitivity(m: SingleProductSpf, k: real)
    ensures var m' := m.(varCost := m.varCost + k);
      && m'.CalculateDemand() == m.CalculateDemand()
      && m'.TotalRevenue() == m.TotalRevenue()
      && m'.TotalVarCost() == m.TotalVarCost() + k * m.CalculateDemand()
      && m'.TotalCost() == m.TotalCost() + k * m.CalculateDemand()
      && m'.Profit() == m.Profit() - k * m.CalculateDemand()
  {
  }

  /** Profit is non-negative exactly when demand reaches the break-even
      demand, and zero exactly when it equals it. */
  lemma ProfitSign(m: SingleProductSpf)
    requires m.varCost < m.sellingPrice
    ensures m.Profit() >= 0.0 <==> m.CalculateDemand() >= m.BreakEvenDemand()
    ensures m.Profit() == 0.0 <==> m.CalculateDemand() == m.BreakEvenDemand()
  {
  }

  /** With the default costs the unit margin is 15, so the fixed cost of 5000
      is covered at a demand of 1000/3 units; the default demand of 1668.5
      lies above it. */
  lemma DefaultBreakEven()
    ensures SingleProductSpf().BreakEvenDemand() == 1000.0 / 3.0
    ensures SingleProductSpf().CalculateDemand() > SingleProductSpf().BreakEvenDemand()
  {
  }

  /** How demand moves when only the selling price moves from S to p:
      D(p) - D(S) == (p - S) * (q * (p + S) + l). */
  lemma DemandPriceChange(m: SingleProductSpf, p: real)
    ensures m.(sellingPrice := p).CalculateDemand() - m.CalculateDemand()
         == (p - m.sellingPrice) * (m.spfQuadratic * (p + m.sellingPrice) + m.spfLinear)
  {
  }

  /** Moving only the selling price from S to p changes demand by
      dD = (p - S) * (q * (p + S) + l), so variable cost moves by V * dD,
      revenue by (p - S) * D(p) + S * dD and profit by (p - S) * D(p) + (S - V) * dD. */
  lemma PriceSensitivity(m: SingleProductSpf, p: real)
    ensures var m' := m.(sellingPrice := p);
      var dD := (p - m.sellingPrice) * (m.spfQuadratic * (p + m.sellingPrice) + m.spfLinear);
      && m'.TotalVarCost() - m.TotalVarCost() == m.varCost * dD
      && m'.TotalRevenue() - m.TotalRevenue() == (p - m.sellingPrice) * m'.CalculateDemand() + m.sellingPrice * dD
      && m'.Profit() - m.Profit() == (p - m.sellingPrice) * m'.CalculateDemand() + (m.sellingPrice - m.varCost) * dD
  {
  }

  /** Vertex form of the demand quadratic: for q != 0,
      D == q * (S + l / 2q)^2 + (c - l^2 / 4q). */
  lemma DemandVertexForm(m: SingleProductSpf)
    requires m.spfQuadratic != 0.0
    ensures m.CalculateDemand()
         == m.spfQuadratic * Square(m.sellingPrice + m.spfLinear / (2.0 * m.spfQuadratic))
            + (m.spfConstant - m.spfLinear * m.spfLinear / (4.0 * m.spfQuadratic))
  {
  }

  /** When the quadratic coefficient is positive, demand is never below
      c - l^2 / 4q, and it reaches that value at the price -l / 2q. */
  lemma DemandMinimum(m: SingleProductSpf)
    requires m.spfQuadratic > 0.0
    ensures m.CalculateDemand() >= m.spfConstant - m.spfLinear * m.spfLinear / (4.0 * m.spfQuadratic)
    ensures m.(sellingPrice := -m.spfLinear / (2.0 * m.spfQuadratic)).CalculateDemand()
         == m.spfConstant - m.spfLinear * m.spfLinear / (4.0 * m.spfQuadratic)
  {
    DemandVertexForm(m);
    var h := m.sellingPrice + m.spfLinear / (2.0 * m.spfQuadratic);
    assert Square(h) >= 0.0;
    assert m.spfQuadratic * Square(h) >= 0.0;
    var m' := m.(sellingPrice := -m.spfLinear / (2.0 * m.spfQuadratic));
    DemandVertexForm(m');
    assert m'.sellingPrice + m'.spfLinear / (2.0 * m'.spfQuadratic) == 0.0;
  }

  /** Sign of a product of two reals. */
  lemma ProductSign(x: real, y: real)
    ensures x * y > 0.0 <==> (x > 0.0 && y > 0.0) || (x < 0.0 && y < 0.0)
    ensures x * y < 0.0 <==> (x > 0.0 && y < 0.0) || (x < 0.0 && y > 0.0)
  {
  }

  /** With the default coefficients, D = 0.06 * (S - 700/3) * (S - 350):
      demand is positive exactly for prices below 700/3 or above 350, and
      negative between them. */
  lemma DefaultDemandSign(s: real)
    ensures SingleProductSpf(sellingPrice := s).CalculateDemand() == 0.06 * ((s - 700.0 / 3.0) * (s - 350.0))
    ensures SingleProductSpf(sellingPrice := s).CalculateDemand() > 0.0 <==> s < 700.0 / 3.0 || s > 350.0
    ensures SingleProductSpf(sellingPrice := s).CalculateDemand() < 0.0 <==> 700.0 / 3.0 < s < 350.0
  {
    var x, y := s - 700.0 / 3.0, s - 350.0;
    assert SingleProductSpf(sellingPrice := s).CalculateDemand() == 0.06 * (x * y);
    ProductSign(x, y);
  }

  /** With the default coefficients, demand strictly falls as the price rises,
      as long as the price stays at or below the vertex 875/3 (this covers the
      prices 80 to 140 the script beside the Python class sweeps). */
  lemma DefaultDemandFalls(s: real, t: real)
    requires s < t <= 875.0 / 3.0
    ensures SingleProductSpf(sellingPrice := t).CalculateDemand() < SingleProductSpf(sellingPrice := s).CalculateDemand()
  {
    var m := SingleProductSpf(sellingPrice := s);
    DemandPriceChange(m, t);
    assert m.(sellingPrice := t) == SingleProductSpf(sellingPrice := t);
    var rise, slope := t - s, 0.06 * (t + s) - 35.0;
    assert rise > 0.0 && slope < 0.0;
    ProductSign(rise, slope);
    assert m.(sellingPrice := t).CalculateDemand() - m.CalculateDemand() == rise * slope;
  }
}
