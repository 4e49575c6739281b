/**
 The image comparison demo (demos/compare.py): two uploaded images are coded,
 and their codes compared unit by unit.

 Code generation (`generate_iscc_semantic`) and the distance computation
 (`ic.iscc_compare`) run in libraries outside this model, so both are
 parameters here. The bar chart drawn from the similarities is not modelled:
 where the demo returns the chart, the model returns the similarities shown
 in it.
 */
module CompareDemo {
  import opened Python
  import opened Similarity

  /** `compare(iscc_a, iscc_b)`: the distances of the two codes, turned into similarities with 64 bits. */
  method Compare(isccA: string, isccB: string, isccCompare: (string, string) -> Dict<string, DistValue>)
    returns (simData: Dict<string, real>)
    ensures simData == DistToSimSpec(isccCompare(isccA, isccB), DEFAULT_DIM)
  {
    var distData := isccCompare(isccA, isccB);
    simData := DistToSim(distData, DEFAULT_DIM);
  }

  /**
   `process_and_compare_images(file1, file2)`: only when both files are given
   are both images coded and compared; otherwise the outputs keep their
   defaults `("", None, "", None, None)`.
   */
  method ProcessAndCompareImages<D(==)>(
    file1: Option<string>, file2: Option<string>,
    generate: string -> (string, D),
    isccCompare: (string, string) -> Dict<string, DistValue>)
    returns (code1: string, detail1: Option<D>, code2: string, detail2: Option<D>,
             comparison: Option<Dict<string, real>>)
    ensures !(Truthy(file1) && Truthy(file2)) ==>
      code1 == "" && detail1 == None && code2 == "" && detail2 == None && comparison == None
    ensures Truthy(file1) && Truthy(file2) ==>
      && (code1, detail1) == (generate(file1.value).0, Some(generate(file1.value).1))
      && (code2, detail2) == (generate(file2.value).0, Some(generate(file2.value).1))
      && comparison == Some(DistToSimSpec(isccCompare(code1, code2), DEFAULT_DIM))
  {
    code1, code2 := "", "";
    detail1, detail2 := None, None;
    comparison := None;
    if Truthy(file1) && Truthy(file2) {
      var (c1, d1) := generate(file1.value);
      var (c2, d2) := generate(file2.value);
      code1, detail1 := c1, Some(d1);
      code2, detail2 := c2, Some(d2);
      var simData := Compare(code1, code2, isccCompare);
      comparison := Some(simData);
    }
  }
}
