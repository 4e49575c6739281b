/**
 Turning the per-unit distances reported by an ISCC comparison into
 approximate similarities, one per unit label. Both demos (compare.py and
 compare2.py) carry the same two routines: `hamming_to_cosine` and
 `dist_to_sim`.
 */
module Similarity {
  import opened Python
  import opened PyStr

  /**
   A value in the distance dictionary: a Hamming distance (`int`) or the
   `instance_match` flag (`bool`). Python's `bool` is a subclass of `int`, so
   the two kinds stay distinguishable (`is True`) but both take part in
   arithmetic.
   */
  datatype DistValue = Int(n: int) | Bool(b: bool)

  /** The integer a value stands for in arithmetic: `True` is 1, `False` is 0. */
  function AsInt(v: DistValue): int {
    match v
    case Int(n) => n
    case Bool(b) => if b then 1 else 0
  }

  /** The one key that is compared by exact match rather than by distance. */
  const INSTANCE_KEY: string := "instance_match"

  /** The bit length every caller converts with (the keyword default, and the explicit `dim=64`). */
  const DEFAULT_DIM: int := 64

  // ---------------------------------------------------------------------------
  // hamming_to_cosine
  // ---------------------------------------------------------------------------

  /**
   `hamming_to_cosine(d, dim)`: the linear approximation `1 - 2d/dim` of the
   cosine similarity of two codes whose Hamming distance is `d`. Python's true
   division becomes real division; `dim == 0` raises ZeroDivisionError.
   */
  function HammingToCosine(d: int, dim: int): (r: real)
    requires dim != 0
    ensures r * (dim as real) == (dim - 2 * d) as real
  {
    1.0 - (2 * d) as real / dim as real
  }

  /** Two reals with equal products by a non-zero factor are equal. */
  lemma CancelFactor(x: real, y: real, f: real)
    requires f != 0.0 && x * f == y * f
    ensures x == y
  {
    assert (x - y) * f == 0.0;
  }

  /** A product with a positive factor keeps the sign of the other factor. */
  lemma PositiveFactor(x: real, f: real)
    requires f > 0.0
    ensures x < 0.0 ==> x * f < 0.0
    ensures x > 0.0 ==> x * f > 0.0
  {
  }

  /** No difference is full similarity, all bits different is full opposition, half is 0. */
  lemma HammingToCosineEndpoints(d: int, dim: int)
    requires dim != 0
    ensures d == 0 ==> HammingToCosine(d, dim) == 1.0
    ensures d == dim ==> HammingToCosine(d, dim) == -1.0
    ensures 2 * d == dim ==> HammingToCosine(d, dim) == 0.0
  {
    var r := HammingToCosine(d, dim);
    var f := dim as real;
    if d == 0 {
      CancelFactor(r, 1.0, f);
    }
    if d == dim {
      CancelFactor(r, -1.0, f);
    }
    if 2 * d == dim {
      CancelFactor(r, 0.0, f);
    }
  }

  /** For a distance between 0 and `dim`, the similarity lies in [-1, 1]. */
  lemma HammingToCosineRange(d: int, dim: int)
    requires 0 < dim && 0 <= d <= dim
    ensures -1.0 <= HammingToCosine(d, dim) <= 1.0
  {
    var r := HammingToCosine(d, dim);
    var f := dim as real;
    assert (r - 1.0) * f == (-2 * d) as real;
    PositiveFactor(r - 1.0, f);
    assert (r + 1.0) * f == (2 * (dim - d)) as real;
    PositiveFactor(r + 1.0, f);
  }

  /** A larger distance gives a strictly smaller similarity. */
  lemma HammingToCosineDecreasing(d1: int, d2: int, dim: int)
    requires 0 < dim && d1 < d2
    ensures HammingToCosine(d2, dim) < HammingToCosine(d1, dim)
  {
    var r1, r2 := HammingToCosine(d1, dim), HammingToCosine(d2, dim);
    var f := dim as real;
    assert (r1 - r2) * f == (2 * (d2 - d1)) as real;
    PositiveFactor(r1 - r2, f);
  }

  /** Distances `d` and `dim - d` give opposite similarities. */
  lemma HammingToCosineOpposite(d: int, dim: int)
    requires dim != 0
    ensures HammingToCosine(dim - d, dim) == -HammingToCosine(d, dim)
  {
    var r1, r2 := HammingToCosine(d, dim), HammingToCosine(dim - d, dim);
    var f := dim as real;
    assert r2 * f == (2 * d - dim) as real;
    assert (-r1) * f == -(r1 * f);
    CancelFactor(r2, -r1, f);
  }

  /** With the 64 bits every caller uses, the similarity is `1 - d/32`. */
  lemma HammingToCosineAtDefaultDim(d: int)
    ensures HammingToCosine(d, DEFAULT_DIM) == 1.0 - (d as real) / 32.0
  {
    var r := HammingToCosine(d, DEFAULT_DIM);
    CancelFactor(r, 1.0 - (d as real) / 32.0, 64.0);
  }

  // ---------------------------------------------------------------------------
  // dist_to_sim
  // ---------------------------------------------------------------------------

  /** `key.split("_")[0].title()`: the label a distance key is shown under. */
  function Label(key: string): (tag: string)
    ensures |tag| <= |key|
  {
    SplitHead(key, '_');
    Title(Split(key, '_')[0])
  }

  /**
   A label is the title-cased text before the key's first underscore: as long
   as that text, letter for letter the same up to case, and free of underscores.
   */
  lemma LabelShape(key: string)
    ensures var head := Split(key, '_')[0];
      && head <= key && (|head| == |key| || key[|head|] == '_')
      && |Label(key)| == |head|
      && (forall i :: 0 <= i < |head| ==> ToLower(Label(key)[i]) == ToLower(head[i]))
      && '_' !in Label(key)
  {
    SplitHead(key, '_');
    var head := Split(key, '_')[0];
    var tag := Label(key);
    forall i | 0 <= i < |tag| ensures tag[i] != '_' && ToLower(tag[i]) == ToLower(head[i]) {
      TitleKeepsLetters(head, i);
      assert head[i] != '_';
    }
  }

  /** A key `head_rest`, with no underscore in `head`, is shown as `head.title()`. */
  lemma LabelOfKey(key: string, head: string, rest: string)
    requires '_' !in head && key == head + "_" + rest
    ensures Label(key) == Title(head)
  {
    SplitAround(head, rest, '_');
  }

  /** The `instance_match` key is shown as "Instance". */
  lemma LabelOfInstanceKey(key: string)
    requires key == INSTANCE_KEY
    ensures Label(key) == "Instance"
  {
    assert Title("instance") == "Instance" by {
      TitleOfLowerWord("instance");
    }
    assert key == "instance" + "_" + "match";
    LabelOfKey(key, "instance", "match");
  }

  /** A distance key such as `meta_dist` is shown under its unit name, "Meta". */
  lemma LabelOfMetaKey(key: string)
    requires key == "meta_dist"
    ensures Label(key) == "Meta"
  {
    assert Title("meta") == "Meta" by {
      TitleOfLowerWord("meta");
    }
    assert key == "meta" + "_" + "dist";
    LabelOfKey(key, "meta", "dist");
  }

  /** `dim` may be 0 only if no key is converted by distance (else ZeroDivisionError). */
  predicate Convertible(data: Dict<string, DistValue>, dim: int) {
    dim != 0 || forall i :: 0 <= i < |data| ==> data[i].0 == INSTANCE_KEY
  }

  /** The similarity one item of the distance dictionary contributes. */
  function Convert(key: string, v: DistValue, dim: int): (sim: real)
    requires key == INSTANCE_KEY || dim != 0
    ensures key == INSTANCE_KEY ==> (sim == 1.0 <==> v == Bool(true)) && (sim == 1.0 || sim == -1.0)
    ensures key != INSTANCE_KEY ==> sim * (dim as real) == (dim - 2 * AsInt(v)) as real
  {
    if key == INSTANCE_KEY then (if v == Bool(true) then 1.0 else -1.0)
    else HammingToCosine(AsInt(v), dim)
  }

  /** Each item of `data` paired with the label and similarity it is stored as. */
  function SimItems(data: Dict<string, DistValue>, dim: int): (items: seq<(string, real)>)
    requires Convertible(data, dim)
    ensures |items| == |data|
  {
    seq(|data|, i requires 0 <= i < |data| => (Label(data[i].0), Convert(data[i].0, data[i].1, dim)))
  }

  /**
   What `dist_to_sim(data, dim)` returns: an empty dict into which each item's
   similarity is stored under its label, item by item in order.
   */
  function DistToSimSpec(data: Dict<string, DistValue>, dim: int): Dict<string, real>
    requires Convertible(data, dim)
  {
    FromItems(SimItems(data, dim))
  }

  /**
   `dist_to_sim(data, dim)`: walks the items of `data` in order and writes each
   one's similarity under its label into `result`.
   */
  method DistToSim(data: Dict<string, DistValue>, dim: int) returns (result: Dict<string, real>)
    requires Convertible(data, dim)
    ensures result == DistToSimSpec(data, dim)
  {
    result := [];
    var i := 0;
    while i < |data|
      invariant 0 <= i <= |data|
      invariant result == FromItems(SimItems(data, dim)[..i])
    {
      var (key, v) := data[i];
      var sim;
      if key == INSTANCE_KEY {
        sim := if v == Bool(true) then 1.0 else -1.0;
      } else {
        sim := HammingToCosine(AsInt(v), dim);
      }
      FromItemsStep(SimItems(data, dim), i);
      result := Store(result, Label(key), sim);
      i := i + 1;
    }
    assert SimItems(data, dim)[..i] == SimItems(data, dim);
  }

  /** The labels of the items of `data`, in order. */
  function Labels(data: Dict<string, DistValue>): (labels: seq<string>)
    ensures |labels| == |data|
    ensures forall i :: 0 <= i < |data| ==> labels[i] == Label(data[i].0)
  {
    seq(|data|, i requires 0 <= i < |data| => Label(data[i].0))
  }

  lemma SimItemsKeys(data: Dict<string, DistValue>, dim: int)
    requires Convertible(data, dim)
    ensures Keys(SimItems(data, dim)) == Labels(data)
  {
  }

  /**
   The result has exactly one entry per distinct label, and the labels appear
   in the order in which each was first produced by an item of `data`.
   */
  lemma DistToSimLabels(data: Dict<string, DistValue>, dim: int)
    requires Convertible(data, dim)
    ensures Distinct(Keys(DistToSimSpec(data, dim)))
    ensures forall l :: l in Keys(DistToSimSpec(data, dim)) <==> l in Labels(data)
    ensures InFirstSeenOrder(Keys(DistToSimSpec(data, dim)), Labels(data))
    ensures DistToSimSpec(data, dim) == [] <==> data == []
  {
    SimItemsKeys(data, dim);
    FromItemsKeys(SimItems(data, dim));
    FromItemsOrder(SimItems(data, dim));
  }

  /** Looking a label up in the result succeeds exactly for the labels of the keys of `data`. */
  lemma DistToSimGet(data: Dict<string, DistValue>, dim: int, tag: string)
    requires Convertible(data, dim)
    ensures Get(DistToSimSpec(data, dim), tag).Some? <==> tag in Labels(data)
  {
    GetFound(DistToSimSpec(data, dim), tag);
    DistToSimLabels(data, dim);
  }

  /** The item at position `i` is the last item of `data` whose key has this label. */
  predicate LastWithLabel(data: Dict<string, DistValue>, i: nat)
    requires i < |data|
  {
    forall j :: i < j < |data| ==> Label(data[j].0) != Label(data[i].0)
  }

  /** Under each label the result holds the similarity of the last item with that label. */
  lemma DistToSimLastWins(data: Dict<string, DistValue>, dim: int, i: nat)
    requires Convertible(data, dim)
    requires i < |data| && LastWithLabel(data, i)
    ensures Get(DistToSimSpec(data, dim), Label(data[i].0)) == Some(Convert(data[i].0, data[i].1, dim))
  {
    var items := SimItems(data, dim);
    assert LastWithKey(items, i) by {
      forall j | i < j < |items| ensures items[j].0 != items[i].0 {
        assert items[j].0 == Label(data[j].0);
      }
    }
    FromItemsLastWins(items, i);
  }

  /** Distances between 0 and `dim` (and any match flag) only ever give similarities in [-1, 1]. */
  predicate DistancesInRange(data: Dict<string, DistValue>, dim: int) {
    && 0 < dim
    && forall i :: 0 <= i < |data| && data[i].0 != INSTANCE_KEY ==> 0 <= AsInt(data[i].1) <= dim
  }

  lemma DistToSimRange(data: Dict<string, DistValue>, dim: int)
    requires DistancesInRange(data, dim)
    ensures forall item :: item in DistToSimSpec(data, dim) ==> -1.0 <= item.1 <= 1.0
  {
    var items := SimItems(data, dim);
    FromItemsEntries(items);
    forall i | 0 <= i < |items| ensures -1.0 <= items[i].1 <= 1.0 {
      if data[i].0 != INSTANCE_KEY {
        HammingToCosineRange(AsInt(data[i].1), dim);
      }
    }
  }

  /**
   The "Instance" entry is 1.0 exactly when the `instance_match` value is
   `True` itself, and -1.0 for any other value (`False`, or an integer, even 1).
   */
  lemma DistToSimInstanceEntry(data: Dict<string, DistValue>, dim: int, i: nat)
    requires Convertible(data, dim)
    requires i < |data| && data[i].0 == INSTANCE_KEY && LastWithLabel(data, i)
    ensures var sims := DistToSimSpec(data, dim);
      && Get(sims, "Instance") == Some(if data[i].1 == Bool(true) then 1.0 else -1.0)
  {
    LabelOfInstanceKey(data[i].0);
    DistToSimLastWins(data, dim, i);
  }

  /** Two codes that agree in every unit (distance 0, exact match) are shown as 1.0 everywhere. */
  predicate AllMatch(data: Dict<string, DistValue>) {
    forall i :: 0 <= i < |data| ==>
      if data[i].0 == INSTANCE_KEY then data[i].1 == Bool(true) else AsInt(data[i].1) == 0
  }

  lemma DistToSimAllMatch(data: Dict<string, DistValue>, dim: int)
    requires dim != 0 && AllMatch(data)
    ensures forall item :: item in DistToSimSpec(data, dim) ==> item.1 == 1.0
  {
    var items := SimItems(data, dim);
    FromItemsEntries(items);
    forall i | 0 <= i < |items| ensures items[i].1 == 1.0 {
      if data[i].0 != INSTANCE_KEY {
        HammingToCosineEndpoints(AsInt(data[i].1), dim);
      }
    }
  }
}
