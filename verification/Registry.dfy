/** The service instances that balancers, the client and the DNS server choose among. */
module Registry {

  datatype Instance = Instance(ip: string, port: int, weight: real)

  /** The sum of the first `n` weights. */
  function Cumulative(list: seq<Instance>, n: nat): real
    requires n <= |list|
  {
    if n == 0 then 0.0 else Cumulative(list, n - 1) + list[n - 1].weight
  }

  function TotalWeight(list: seq<Instance>): real {
    Cumulative(list, |list|)
  }

  method SumWeights(list: seq<Instance>) returns (total: real)
    ensures total == TotalWeight(list)
  {
    total := 0.0;
    for i := 0 to |list|
      invariant total == Cumulative(list, i)
    {
      total := total + list[i].weight;
    }
  }
}
