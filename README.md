# Single-product break-even model

A Dafny model of the Python class `SingleProductSPF` in notebooks/breakevendebug.py, the break-even model of a company that sells one product. It has six parameters:

- the monthly fixed cost F;
- the variable cost per unit V;
- the selling price S;
- the three coefficients c, l and q of the selling-price function (SPF).

The SPF gives the monthly demand D = q·S² + l·S + c. The defaults are F = 5000, V = 100, S = 115, c = 4900, l = −35 and q = 0.06. This is the curve D = 0.06S² − 35S + 4900 named in the class's documentation. Five outputs are computed from the parameters:

- demand;
- total variable cost, D·V;
- total revenue, D·S;
- total cost, F + D·V;
- profit, revenue − cost.

The model is the datatype `BreakEven.SingleProductSpf`. Its constructor has the same argument order and the same defaults as the Python class, so `SingleProductSpf()` is the default model and `SingleProductSpf(sellingPrice := s)` changes one argument, as a keyword argument does. The five outputs are member functions with the Python class's names in Dafny's casing: `CalculateDemand`, `TotalVarCost`, `TotalRevenue`, `TotalCost` and `Profit`. Each one is exactly the Python class's arithmetic expression. Their properties are stated in the lemmas below and in `Profit`'s own contract.

A model is an immutable value, and every output is a function of its six fields. So no output can change a parameter, and calling the outputs in any order, any number of times, gives the same values. The Python class promises this too: its output methods only read `self`. The model gets it from its construction, so no lemma states it.

All quantities are exact `real`s, so 0.06 stays exact. With the defaults, demand is 0.06·13225 − 35·115 + 4900 = 793.5 − 4025 + 4900 = 1668.5. Profit at the defaults is 20027.5.

The model also states facts about the default demand curve. Demand is 0.06·(S − 700/3)·(S − 350). So it is positive only below 700/3 and above 350, and it is negative between those prices. It falls strictly as the price rises up to the vertex at 875/3. That range includes the prices 80 to 140 that the script sweeps.

The model also defines the break-even demand F / (S − V) for the case S > V. Profit is non-negative exactly when demand reaches this value. At the defaults it is 1000/3.

## Model

| member | source | states |
|---|---|---|
| `BreakEven.ConstructorKeepsArguments` | notebooks/breakevendebug.py:36-43 | the constructor stores each of its six arguments unchanged in the field of the same name |
| `BreakEven.DefaultOutputs` | notebooks/breakevendebug.py:36-66 | the defaults are 5000, 100, 115, 4900, −35 and 0.06; at the defaults demand is exactly 1668.5, total variable cost 166850, revenue 191877.5, total cost 171850 and profit 20027.5 |
| `BreakEven.SingleProductSpf.Profit` | notebooks/breakevendebug.py:63-66 | profit (revenue minus total cost) equals demand times the unit margin S − V, minus the fixed cost |
| `BreakEven.FixedCostSensitivity` | notebooks/breakevendebug.py:59-66 | raising the fixed cost by k, with all other fields unchanged, lowers profit by exactly k, raises total cost by k and leaves demand, variable cost and revenue unchanged |
| `BreakEven.VarCostSensitivity` | notebooks/breakevendebug.py:51-66 | raising the unit variable cost by k leaves demand and revenue unchanged, raises total variable cost and total cost by k per demanded unit and lowers profit by the same amount |
| `BreakEven.SingleProductSpf.BreakEvenDemand` | notebooks/breakevendebug.py:59-66 | when S > V, the break-even demand times the unit margin equals the fixed cost; it is non-negative when the fixed cost is |
| `BreakEven.ProfitSign` | notebooks/breakevendebug.py:51-66 | when S > V, profit is non-negative if and only if demand is at least the break-even demand, and zero if and only if they are equal |
| `BreakEven.DefaultBreakEven` | notebooks/breakevendebug.py:36-66 | at the defaults the break-even demand is 1000/3, below the default demand |
| `BreakEven.DemandPriceChange` | notebooks/breakevendebug.py:45-49 | if only the selling price moves from S to p, demand changes by (p − S)·(q·(p + S) + l) |
| `BreakEven.PriceSensitivity` | notebooks/breakevendebug.py:45-66 | if only the selling price moves from S to p, with dD the change in demand, total variable cost changes by V·dD, revenue by (p − S)·D(p) + S·dD and profit by (p − S)·D(p) + (S − V)·dD |
| `BreakEven.DemandVertexForm` | notebooks/breakevendebug.py:45-49 | when q ≠ 0, demand equals q·(S + l/2q)² + c − l²/4q |
| `BreakEven.DemandMinimum` | notebooks/breakevendebug.py:45-49 | when q > 0, demand is never below c − l²/4q, and demand takes that value at the price −l/2q |
| `BreakEven.DefaultDemandSign` | notebooks/breakevendebug.py:36-49 | with the default coefficients, demand equals 0.06·(S − 700/3)·(S − 350); it is positive if and only if the price is below 700/3 or above 350, and negative if and only if the price lies strictly between them |
| `BreakEven.DefaultDemandFalls` | notebooks/breakevendebug.py:36-49 | with the default coefficients, demand strictly falls as the price rises, for prices up to 875/3 |

## Left out

- The `whatif.Model` base class with its `data_table` and `goal_seek`, and the `get_sim_results_df` import (notebooks/breakevendebug.py:6-7, 85, 89). They belong to an external library whose code is not part of this model. `BreakEvenDemand` is a closed form for the demand at which profit is zero. It does not model the library's search. In particular, `DefaultBreakEven`'s 1000/3 is that closed form at the defaults, not the result the script's search would give: no output reads an attribute named `demand`, so profit does not move during that search.
- The names `'demand'` in the script's output list (line 82) and as the goal-seek input (line 89). They match no method of the class, and none of the six attributes that `__init__` sets (lines 38-43) and the outputs read, so the model gives them no meaning.
- Array-valued parameters, which the class documentation allows (lines 23-34). Broadcasting them is numpy behaviour, so the model has scalar parameters only.
- Floating-point rounding. The Python class computes in binary floating point; the model uses exact reals.
- The partial refund for unsold items mentioned in the class documentation (line 18). No method computes it.
- Script-level code: imports, printing `sys.path` and results, building the price range with `np.arange`, and calling the library (lines 1-4, 68-89).
- setup.py, which holds only packaging metadata.
