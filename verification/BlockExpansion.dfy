/** Block expansion of a model's weights (llama_pro.py): the layers are renumbered, and after every `split` of
    them a copy is inserted whose output projections are zero. */
module BlockExpansion {
  import opened Basics
  import opened Arithmetic

  // ---------------------------------------------------------------- parameter names

  /** A name is read as its dot-separated parts; Num(n) is the part that is n in decimal. */
  datatype Part = Name(text: string) | Num(n: nat)

  type Key = seq<Part>

  /** change_name from part `at` on. A match takes the dots on both sides of a number, so the part after a
      replaced one cannot match. */
  function ChangeFrom(key: Key, at: nat, i: nat, j: nat): Key
    decreases |key| - at
  {
    if at + 1 >= |key| then key
    else if key[at] == Num(i) then ChangeFrom(key[at := Num(j)], at + 2, i, j)
    else ChangeFrom(key, at + 1, i, j)
  }

  function ChangeName(key: Key, i: nat, j: nat): Key {
    ChangeFrom(key, 1, i, j)
  }

  /** ".i." in key */
  predicate Mentions(key: Key, i: nat) {
    exists p :: 0 < p < |key| - 1 && key[p] == Num(i)
  }

  function FirstNumber(key: Key, from: nat): (p: nat)
    requires from <= |key|
    ensures from <= p <= |key|
    ensures p < |key| ==> p + 1 < |key| && key[p].Num?
    ensures forall q :: from <= q < |key| - 1 && key[q].Num? ==> p <= q
    decreases |key| - from
  {
    if from + 1 >= |key| then |key| else if key[from].Num? then from else FirstNumber(key, from + 1)
  }

  /** Where the number of a key is: the first inner part that is one, |key| when there is none. */
  function Position(key: Key): nat {
    if |key| == 0 then 0 else FirstNumber(key, 1)
  }

  predicate Numbered(key: Key) {
    Position(key) < |key|
  }

  function Index(key: Key): nat
    requires Numbered(key)
  {
    key[Position(key)].n
  }

  function Renumber(key: Key, i: nat): Key
    requires Numbered(key)
  {
    key[Position(key) := Num(i)]
  }

  /** Behind its first number a key has no inner number below `layers`, except one equal to the first and directly
      after it, which shares its dot. */
  ghost predicate OneLayerNumber(key: Key, layers: nat) {
    forall q :: 0 < q < |key| - 1 && key[q].Num? && key[q].n < layers && q != Position(key) ==>
      q == Position(key) + 1 && key[q] == key[Position(key)]
  }

  lemma {:induction false} PositionIs(key: Key, from: nat, p: nat)
    requires from <= p < |key| - 1 && key[p].Num?
    requires forall q :: from <= q < p ==> !key[q].Num?
    ensures FirstNumber(key, from) == p
    decreases p - from
  {
    if from < p {
      PositionIs(key, from + 1, p);
    }
  }

  lemma Renumbered(key: Key, i: nat)
    requires Numbered(key)
    ensures Numbered(Renumber(key, i)) && Position(Renumber(key, i)) == Position(key)
    ensures Index(Renumber(key, i)) == i
    ensures forall j :: Renumber(Renumber(key, i), j) == Renumber(key, j)
    ensures Renumber(key, Index(key)) == key
  {
    PositionIs(Renumber(key, i), 1, Position(key));
  }

  lemma {:induction false} ChangeNothing(key: Key, at: nat, i: nat, j: nat)
    requires forall q :: at <= q < |key| - 1 ==> key[q] != Num(i)
    ensures ChangeFrom(key, at, i, j) == key
    decreases |key| - at
  {
    if at + 1 < |key| {
      ChangeNothing(key, at + 1, i, j);
    }
  }

  /** The first match is replaced, and the scan goes on two parts later. */
  lemma {:induction false} ChangeAtFirst(key: Key, at: nat, p: nat, i: nat, j: nat)
    requires at <= p < |key| - 1 && key[p] == Num(i)
    requires forall q :: at <= q < p ==> key[q] != Num(i)
    ensures ChangeFrom(key, at, i, j) == ChangeFrom(key[p := Num(j)], p + 2, i, j)
    decreases p - at
  {
    if at < p {
      ChangeAtFirst(key, at + 1, p, i, j);
    }
  }

  lemma {:induction false} ChangeKeepsFront(key: Key, at: nat, i: nat, j: nat, p: nat)
    requires p < at && p < |key|
    ensures |ChangeFrom(key, at, i, j)| == |key| && ChangeFrom(key, at, i, j)[p] == key[p]
    decreases |key| - at
  {
    if at + 1 < |key| {
      if key[at] == Num(i) {
        ChangeKeepsFront(key[at := Num(j)], at + 2, i, j, p);
      } else {
        ChangeKeepsFront(key, at + 1, i, j, p);
      }
    }
  }

  ghost predicate MatchesFrom(key: Key, at: nat, i: nat) {
    exists q :: at <= q < |key| - 1 && key[q] == Num(i)
  }

  /** A scan for another number leaves the key alone exactly when it finds nothing. */
  lemma {:induction false} ChangeFixed(key: Key, at: nat, i: nat, j: nat)
    requires i != j
    ensures ChangeFrom(key, at, i, j) == key <==> !MatchesFrom(key, at, i)
    decreases |key| - at
  {
    if !MatchesFrom(key, at, i) {
      ChangeNothing(key, at, i, j);
    } else if key[at] == Num(i) {
      ChangeKeepsFront(key[at := Num(j)], at + 2, i, j, at);
    } else {
      ChangeFixed(key, at + 1, i, j);
    }
  }

  lemma MentionsFirst(key: Key)
    requires Numbered(key)
    ensures Mentions(key, Index(key))
    ensures forall q :: 0 < q < Position(key) ==> !key[q].Num?
  {
    assert key[Position(key)] == Num(Index(key));
  }

  /** Renumbering the first number is renaming exactly when the number does not occur again, two parts later or
      more. */
  lemma RenameFirst(key: Key, j: nat)
    requires Numbered(key) && j != Index(key)
    ensures ChangeName(key, Index(key), j) == Renumber(key, j) <==> !MatchesFrom(key, Position(key) + 2, Index(key))
  {
    var p, i := Position(key), Index(key);
    MentionsFirst(key);
    ChangeAtFirst(key, 1, p, i, j);
    ChangeFixed(Renumber(key, j), p + 2, i, j);
    assert forall q :: p + 2 <= q < |key| ==> Renumber(key, j)[q] == key[q];
    if MatchesFrom(key, p + 2, i) {
      var q :| p + 2 <= q < |key| - 1 && key[q] == Num(i);
      assert Renumber(key, j)[q] == Num(i);
    }
  }

  lemma {:induction false} ChangeSame(key: Key, at: nat, i: nat)
    ensures ChangeFrom(key, at, i, i) == key
    decreases |key| - at
  {
    if at + 1 < |key| {
      if key[at] == Num(i) {
        assert key[at := Num(i)] == key;
        ChangeSame(key, at + 2, i);
      } else {
        ChangeSame(key, at + 1, i);
      }
    }
  }

  /** Matching and renaming mean what they should for layer i: the key is matched if it is of that layer, and its
      layer number is all that changes. */
  ghost predicate RenamedFor(key: Key, i: nat) {
    && (Mentions(key, i) <==> Numbered(key) && Index(key) == i)
    && (Mentions(key, i) ==> forall j :: ChangeName(key, i, j) == Renumber(key, j))
  }

  lemma RenamedIfSingle(key: Key, layers: nat, i: nat)
    requires OneLayerNumber(key, layers) && i < layers
    ensures RenamedFor(key, i)
  {
    if p :| 0 < p < |key| - 1 && key[p] == Num(i) {
      assert Numbered(key) && Index(key) == i;
    }
    if Numbered(key) && Index(key) == i {
      MentionsFirst(key);
      forall j
        ensures ChangeName(key, i, j) == Renumber(key, j)
      {
        if j == i {
          ChangeSame(key, 1, i);
        } else {
          RenameFirst(key, j);
        }
      }
    }
  }

  lemma SingleIfRenamed(key: Key, layers: nat)
    requires forall i :: 0 <= i < layers ==> RenamedFor(key, i)
    ensures OneLayerNumber(key, layers)
  {
    forall q | 0 < q < |key| - 1 && key[q].Num? && key[q].n < layers && q != Position(key)
      ensures q == Position(key) + 1 && key[q] == key[Position(key)]
    {
      var i := key[q].n;
      assert RenamedFor(key, i);
      assert Mentions(key, i);
      RenameFirst(key, i + 1);
      assert ChangeName(key, i, i + 1) == Renumber(key, i + 1);
      assert !MatchesFrom(key, Position(key) + 2, i);
    }
  }

  /** All layers of a model are matched and renamed as they should be exactly for the names without a second layer
      number. */
  lemma RenamedExactly(key: Key, layers: nat)
    ensures (forall i :: 0 <= i < layers ==> RenamedFor(key, i)) <==> OneLayerNumber(key, layers)
  {
    if OneLayerNumber(key, layers) {
      forall i | 0 <= i < layers
        ensures RenamedFor(key, i)
      {
        RenamedIfSingle(key, layers, i);
      }
    }
    if forall i :: 0 <= i < layers ==> RenamedFor(key, i) {
      SingleIfRenamed(key, layers);
    }
  }

  // ---------------------------------------------------------------- weights

  datatype Tensor = Vector(v: seq<real>) | Matrix(rows: seq<seq<real>>)

  function Zero(n: nat): seq<real> {
    seq(n, _ => 0.0)
  }

  /** torch.zeros_like */
  function ZerosLike(t: Tensor): Tensor {
    match t
    case Vector(v) => Vector(Zero(|v|))
    case Matrix(rows) => Matrix(seq(|rows|, r requires 0 <= r < |rows| => Zero(|rows[r]|)))
  }

  predicate Contains(s: string, sub: string) {
    exists a, b :: 0 <= a <= b <= |s| && s[a..b] == sub
  }

  /** "down_proj" in key or "o_proj" in key: neither text holds a dot, so it lies in one part. */
  predicate Projects(key: Key) {
    exists p ::
      0 <= p < |key| && key[p].Name? &&
      (Contains(key[p].text, "down_proj") || Contains(key[p].text, "o_proj"))
  }

  type Weights = map<Key, Tensor>

  /** The keys of w, once each, in the order of the dictionary. */
  ghost predicate Listing(order: seq<Key>, w: Weights) {
    forall k :: k in order <==> k in w
  }

  // ---------------------------------------------------------------- the expansion

  datatype Slot = Slot(from: nat, inserted: bool)

  /** What the weights of slot sl become. */
  function Weight(key: Key, t: Tensor, inserted: bool): Tensor {
    if inserted && Projects(key) then ZerosLike(t) else t
  }

  /** The output layers written while the first i layers are read. */
  function Slots(i: nat, split: int): seq<Slot>
    requires i == 0 || split != 0
  {
    if i == 0 then []
    else
      Slots(i - 1, split) + [Slot(i - 1, false)] + if i % split == 0 then [Slot(i - 1, true)] else []
  }

  /** One inner loop: the weights of layer i, written under number `at`. */
  function CopyLayer(order: seq<Key>, w: Weights, i: nat, at: nat, inserted: bool, out: Weights): Weights
    requires forall k :: k in order ==> k in w
  {
    if |order| == 0 then out
    else
      var key := order[|order| - 1];
      assert key in order;
      var front := CopyLayer(order[..|order| - 1], w, i, at, inserted, out);
      if Mentions(key, i) then front[ChangeName(key, i, at) := Weight(key, w[key], inserted)] else front
  }

  function Layers(order: seq<Key>, w: Weights, i: nat, split: int): Weights
    requires forall k :: k in order ==> k in w
    requires i == 0 || split != 0
  {
    if i == 0 then map[]
    else
      var at := |Slots(i - 1, split)|;
      var out := CopyLayer(order, w, i - 1, at, false, Layers(order, w, i - 1, split));
      if i % split == 0 then CopyLayer(order, w, i - 1, at + 1, true, out) else out
  }

  /** The last loop: keys the output does not have yet. */
  function AddRest(order: seq<Key>, w: Weights, out: Weights): Weights
    requires forall k :: k in order ==> k in w
  {
    if |order| == 0 then out
    else
      var key := order[|order| - 1];
      assert key in order;
      var front := AddRest(order[..|order| - 1], w, out);
      if key in front then front else front[key := w[key]]
  }

  function Expand(order: seq<Key>, w: Weights, layers: nat, split: int): Weights
    requires forall k :: k in order ==> k in w
    requires layers == 0 || split != 0
  {
    AddRest(order, w, Layers(order, w, layers, split))
  }

  datatype Error = ZeroDivision | NotDivisible

  /** The layer count written to the configuration, and the weights. */
  datatype Expanded = Expanded(layers: int, weights: Weights)

  method CopyOne(order: seq<Key>, w: Weights, i: nat, at: nat, inserted: bool, out: Weights) returns (r: Weights)
    requires forall k :: k in order ==> k in w
    ensures r == CopyLayer(order, w, i, at, inserted, out)
  {
    r := out;
    for n := 0 to |order|
      invariant r == CopyLayer(order[..n], w, i, at, inserted, out)
    {
      var key := order[n];
      assert order[..n + 1][..n] == order[..n];
      if Mentions(key, i) {
        r := r[ChangeName(key, i, at) := Weight(key, w[key], inserted)];
      }
    }
    assert order[..|order|] == order;
  }

  method CopyRest(order: seq<Key>, w: Weights, numbered: Weights) returns (out: Weights)
    requires forall k :: k in order ==> k in w
    ensures out == AddRest(order, w, numbered)
  {
    out := numbered;
    for n := 0 to |order|
      invariant out == AddRest(order[..n], w, numbered)
    {
      assert order[..n + 1][..n] == order[..n];
      if order[n] !in out {
        out := out[order[n] := w[order[n]]];
      }
    }
    assert order[..|order|] == order;
  }

  method BlockExpansion(order: seq<Key>, w: Weights, layers: nat, numExpand: int) returns (r: Result<Expanded, Error>)
    requires Listing(order, w)
    ensures r == Err(ZeroDivision) <==> numExpand == 0
    ensures r.Ok? <==> numExpand != 0 && layers % numExpand == 0
    ensures r.Ok? ==> r.value.layers == layers + numExpand && (layers > 0 ==> layers / numExpand != 0)
    ensures r.Ok? ==> r.value.weights == Expand(order, w, layers, layers / numExpand)
  {
    if numExpand == 0 {
      return Err(ZeroDivision);
    }
    if layers % numExpand != 0 {
      return Err(NotDivisible);
    }
    var split := layers / numExpand;
    var layerCnt := 0;
    var out: Weights := map[];
    for i := 0 to layers
      invariant layerCnt == |Slots(i, split)|
      invariant out == Layers(order, w, i, split)
    {
      out := CopyOne(order, w, i, layerCnt, false, out);
      layerCnt := layerCnt + 1;
      if (i + 1) % split == 0 {
        out := CopyOne(order, w, i, layerCnt, true, out);
        layerCnt := layerCnt + 1;
      }
    }
    out := CopyRest(order, w, out);
    r := Ok(Expanded(layers + numExpand, out));
  }

  // ---------------------------------------------------------------- where every weight ends up

  /** No name has a second number that is the number of a layer. */
  ghost predicate SingleNames(w: Weights, layers: nat) {
    forall k :: k in w ==> OneLayerNumber(k, layers)
  }

  ghost predicate RenamedNames(w: Weights, i: nat) {
    forall k :: k in w ==> RenamedFor(k, i)
  }

  lemma SingleMeansRenamed(w: Weights, layers: nat, i: nat)
    requires SingleNames(w, layers) && i < layers
    ensures RenamedNames(w, i)
  {
    forall k | k in w
      ensures RenamedFor(k, i)
    {
      RenamedIfSingle(k, layers, i);
    }
  }

  ghost predicate From(order: seq<Key>, k: Key, i: nat, at: nat) {
    Numbered(k) && Index(k) == at && Renumber(k, i) in order
  }

  lemma {:induction false} CopyLayerEntry(order: seq<Key>, w: Weights, i: nat, at: nat, inserted: bool, out: Weights,
                                          k: Key)
    requires RenamedNames(w, i) && forall x :: x in order ==> x in w
    ensures var r := CopyLayer(order, w, i, at, inserted, out);
            if From(order, k, i, at) then
              k in r && r[k] == Weight(Renumber(k, i), w[Renumber(k, i)], inserted)
            else
              (k in r <==> k in out) && (k in r ==> r[k] == out[k])
  {
    if |order| > 0 {
      var front, key := order[..|order| - 1], order[|order| - 1];
      assert order == front + [key];
      assert key in order;
      CopyLayerEntry(front, w, i, at, inserted, out, k);
      assert RenamedFor(key, i);
      if Mentions(key, i) {
        Renumbered(key, at);
        if Numbered(k) {
          Renumbered(k, i);
          assert Renumber(k, i) == key && Index(k) == at ==> k == Renumber(key, at);
        }
      } else if Numbered(k) {
        Renumbered(k, i);
      }
    }
  }

  ghost predicate Supplied(w: Weights, slots: seq<Slot>, k: Key) {
    Numbered(k) && Index(k) < |slots| && Renumber(k, slots[Index(k)].from) in w
  }

  ghost function SuppliedWeight(w: Weights, slots: seq<Slot>, k: Key): Tensor
    requires Supplied(w, slots, k)
  {
    var sl := slots[Index(k)];
    Weight(Renumber(k, sl.from), w[Renumber(k, sl.from)], sl.inserted)
  }

  ghost predicate Holds(out: Weights, w: Weights, slots: seq<Slot>, k: Key) {
    && (k in out <==> Supplied(w, slots, k))
    && (k in out ==> out[k] == SuppliedWeight(w, slots, k))
  }

  lemma CopyHolds(order: seq<Key>, w: Weights, slots: seq<Slot>, sl: Slot, out: Weights, k: Key)
    requires RenamedNames(w, sl.from) && Listing(order, w) && Holds(out, w, slots, k)
    ensures Holds(CopyLayer(order, w, sl.from, |slots|, sl.inserted, out), w, slots + [sl], k)
  {
    CopyLayerEntry(order, w, sl.from, |slots|, sl.inserted, out, k);
    var all := slots + [sl];
    assert all[|slots|] == sl;
    assert forall j :: 0 <= j < |slots| ==> all[j] == slots[j];
  }

  /** One layer of the input, and its copy if it closes a group. */
  lemma LayerHolds(order: seq<Key>, w: Weights, slots: seq<Slot>, i: nat, twice: bool, out: Weights, k: Key)
    requires RenamedNames(w, i) && Listing(order, w) && Holds(out, w, slots, k)
    ensures var once := CopyLayer(order, w, i, |slots|, false, out);
            if twice then
              Holds(CopyLayer(order, w, i, |slots| + 1, true, once), w, slots + [Slot(i, false)] + [Slot(i, true)], k)
            else Holds(once, w, slots + [Slot(i, false)], k)
  {
    CopyHolds(order, w, slots, Slot(i, false), out, k);
    if twice {
      var once := CopyLayer(order, w, i, |slots|, false, out);
      CopyHolds(order, w, slots + [Slot(i, false)], Slot(i, true), once, k);
    }
  }

  lemma {:induction false} LayersHold(order: seq<Key>, w: Weights, layers: nat, i: nat, split: int, k: Key)
    requires SingleNames(w, layers) && Listing(order, w) && i <= layers && (i == 0 || split != 0)
    ensures Holds(Layers(order, w, i, split), w, Slots(i, split), k)
  {
    if i > 0 {
      LayersHold(order, w, layers, i - 1, split, k);
      SingleMeansRenamed(w, layers, i - 1);
      var slots, out := Slots(i - 1, split), Layers(order, w, i - 1, split);
      LayerHolds(order, w, slots, i - 1, i % split == 0, out, k);
      SlotsLast(i, split);
    }
  }

  lemma SlotsLast(i: nat, split: int)
    requires i > 0 && split != 0
    ensures var once := Slots(i - 1, split) + [Slot(i - 1, false)];
            Slots(i, split) == if i % split == 0 then once + [Slot(i - 1, true)] else once
  {
  }

  lemma {:induction false} RestEntry(order: seq<Key>, w: Weights, out: Weights, k: Key)
    requires forall x :: x in order ==> x in w
    ensures var r := AddRest(order, w, out);
            && (k in r <==> k in out || k in order)
            && (k in out ==> r[k] == out[k]) && (k !in out && k in order ==> r[k] == w[k])
  {
    if |order| > 0 {
      assert order[|order| - 1] in order;
      assert order == order[..|order| - 1] + [order[|order| - 1]];
      RestEntry(order[..|order| - 1], w, out, k);
    }
  }

  /** Every entry of the result: a weight of output layer j is that of the layer slot j was read from, zeroed in
      an inserted layer if it is an output projection; every other key is an input key left alone. */
  lemma EveryEntry(order: seq<Key>, w: Weights, layers: nat, split: int, k: Key)
    requires SingleNames(w, layers) && Listing(order, w) && (layers == 0 || split != 0)
    ensures var out, slots := Expand(order, w, layers, split), Slots(layers, split);
            if Supplied(w, slots, k) then
              k in out && out[k] == SuppliedWeight(w, slots, k)
            else
              (k in out <==> k in w) && (k in out ==> out[k] == w[k])
  {
    LayersHold(order, w, layers, layers, split, k);
    RestEntry(order, w, Layers(order, w, layers, split), k);
  }

  /** Some part of the name has this text in it. */
  ghost predicate Names(key: Key, text: string) {
    exists p, a, b :: 0 <= p < |key| && key[p].Name? && 0 <= a <= b <= |key[p].text| && key[p].text[a..b] == text
  }

  lemma ProjectsMeansNames(key: Key)
    ensures Projects(key) <==> Names(key, "down_proj") || Names(key, "o_proj")
  {
    forall text: string | Names(key, text)
      ensures exists p :: 0 <= p < |key| && key[p].Name? && Contains(key[p].text, text)
    {
      var p, a, b :| 0 <= p < |key| && key[p].Name? && 0 <= a <= b <= |key[p].text| && key[p].text[a..b] == text;
      assert Contains(key[p].text, text);
    }
    forall p, text: string | 0 <= p < |key| && key[p].Name? && Contains(key[p].text, text)
      ensures Names(key, text)
    {
    }
  }

  ghost predicate SameShape(a: Tensor, b: Tensor) {
    match a
    case Vector(v) => b.Vector? && |v| == |b.v|
    case Matrix(rows) =>
      b.Matrix? && |rows| == |b.rows| && forall r :: 0 <= r < |rows| ==> |rows[r]| == |b.rows[r]|
  }

  ghost predicate AllZero(t: Tensor) {
    match t
    case Vector(v) => forall i :: 0 <= i < |v| ==> v[i] == 0.0
    case Matrix(rows) => forall r, i :: 0 <= r < |rows| && 0 <= i < |rows[r]| ==> rows[r][i] == 0.0
  }

  lemma ZerosLikeIsZero(t: Tensor)
    ensures SameShape(ZerosLike(t), t) && AllZero(ZerosLike(t))
  {
  }

  /** The tensor of an output layer: in an inserted layer the output projections are all zeros, in the shape they
      had; every other weight of it, and every weight of the other layers, is that of the layer read. */
  lemma ZeroedExactly(order: seq<Key>, w: Weights, layers: nat, split: int, k: Key)
    requires SingleNames(w, layers) && Listing(order, w) && (layers == 0 || split != 0)
    requires var slots := Slots(layers, split);
             Numbered(k) && Index(k) < |slots| && Renumber(k, slots[Index(k)].from) in w
    ensures var out, sl := Expand(order, w, layers, split), Slots(layers, split)[Index(k)];
            var read := w[Renumber(k, sl.from)];
            && k in out
            && (sl.inserted && (Names(k, "down_proj") || Names(k, "o_proj")) ==>
                 SameShape(out[k], read) && AllZero(out[k]))
            && (!(sl.inserted && (Names(k, "down_proj") || Names(k, "o_proj"))) ==> out[k] == read)
  {
    var sl := Slots(layers, split)[Index(k)];
    EveryEntry(order, w, layers, split, k);
    ZerosLikeIsZero(w[Renumber(k, sl.from)]);
    ProjectsMeansNames(k);
    RenumberedProjects(k, sl.from);
  }

  lemma RenumberedProjects(key: Key, i: nat)
    requires Numbered(key)
    ensures Projects(Renumber(key, i)) == Projects(key)
  {
    var r := Renumber(key, i);
    assert forall p :: 0 <= p < |key| && key[p].Name? ==> r[p] == key[p];
    assert forall p :: 0 <= p < |key| && r[p].Name? ==> r[p] == key[p];
  }

  // ---------------------------------------------------------------- which layer goes where

  lemma QuotientStep(i: nat, t: nat)
    requires t > 0
    ensures (i + 1) / t == i / t + if (i + 1) % t == 0 then 1 else 0
  {
    var q, r := i / t, i % t;
    assert i + 1 == q * t + (r + 1);
    if r + 1 == t {
      OneMore(q, t);
      Divided(i + 1, t, q + 1, 0);
    } else {
      Divided(i + 1, t, q, r + 1);
    }
  }

  lemma SameDivisors(i: nat, split: int)
    requires split != 0
    ensures i % split == i % Abs(split)
  {
    var q := i / split;
    if split < 0 {
      assert i == q * split + i % split;
      assert q * split == (-q) * (-split);
      Divided(i, -split, -q, i % split);
    }
  }

  /** Layer i lands at i + i / |split|, followed by its zeroed copy when it closes a group. */
  lemma {:induction false} SlotPlaces(n: nat, split: int, i: nat)
    requires i < n && split != 0
    ensures |Slots(n, split)| == n + n / Abs(split)
    ensures i + i / Abs(split) < |Slots(n, split)| && Slots(n, split)[i + i / Abs(split)] == Slot(i, false)
    ensures (i + 1) % Abs(split) == 0 ==>
              i + i / Abs(split) + 1 < |Slots(n, split)| && Slots(n, split)[i + i / Abs(split) + 1] == Slot(i, true)
  {
    var t := Abs(split);
    QuotientStep(n - 1, t);
    SameDivisors(n, split);
    if n > 1 {
      SlotPlaces(n - 1, split, if i < n - 1 then i else 0);
    } else {
      assert Slots(0, split) == [];
      assert 0 / t == 0;
    }
  }

  lemma SplitSize(layers: nat, numExpand: int)
    requires numExpand != 0 && layers % numExpand == 0 && layers > 0
    ensures layers / numExpand != 0 && layers / Abs(layers / numExpand) == Abs(numExpand)
  {
    var split := layers / numExpand;
    assert layers == split * numExpand;
    if split > 0 {
      assert numExpand < 0 ==> split * numExpand < 0;
      Divided(layers, split, numExpand, 0);
    } else {
      assert numExpand > 0 ==> split * numExpand <= 0;
      assert split * numExpand == (-numExpand) * (-split);
      Divided(layers, -split, -numExpand, 0);
    }
  }

  /** The number of layers announced is the number written exactly when the caller asks for at least one more
      and there is one to copy: a negative num_expand passes the divisibility check. */
  lemma AnnouncedLayers(layers: nat, numExpand: int)
    requires numExpand != 0 && layers % numExpand == 0
    ensures layers > 0 ==> layers / numExpand != 0
    ensures |Slots(layers, layers / numExpand)| == (if layers == 0 then 0 else layers + Abs(numExpand))
    ensures |Slots(layers, layers / numExpand)| == layers + numExpand <==> numExpand > 0 && layers > 0
  {
    if layers > 0 {
      SplitSize(layers, numExpand);
      SlotPlaces(layers, layers / numExpand, 0);
    }
  }

  // ---------------------------------------------------------------- the computed function

  type Vec = seq<real>

  /** Token by token. */
  type Stream = seq<Vec>

  /** The weights of one layer by the rest of their name; finite in every dictionary. */
  type Params = imap<Key, Tensor>

  const LayerPrefix: Key := [Name("model"), Name("layers")]
  const OWeight: Key := [Name("self_attn"), Name("o_proj"), Name("weight")]
  const OBias: Key := [Name("self_attn"), Name("o_proj"), Name("bias")]
  const DownWeight: Key := [Name("mlp"), Name("down_proj"), Name("weight")]
  const DownBias: Key := [Name("mlp"), Name("down_proj"), Name("bias")]

  function LayerKey(i: nat, rest: Key): Key {
    LayerPrefix + [Num(i)] + rest
  }

  ghost function LayerParams(w: Weights, i: nat): Params {
    imap rest: Key | rest != [] && LayerKey(i, rest) in w :: w[LayerKey(i, rest)]
  }

  function Add(x: Vec, y: Vec): Vec {
    seq(|x|, i requires 0 <= i < |x| => x[i] + if i < |y| then y[i] else 0.0)
  }

  function Dot(a: Vec, b: Vec): real {
    if |a| == 0 || |b| == 0 then 0.0 else a[0] * b[0] + Dot(a[1..], b[1..])
  }

  /** t applied to a: a matrix product, or the vector itself for a bias. */
  function Apply(t: Tensor, a: Vec): Vec {
    match t
    case Vector(v) => v
    case Matrix(rows) => seq(|rows|, r requires 0 <= r < |rows| => Dot(rows[r], a))
  }

  ghost function Term(p: Params, name: Key, a: Vec): Vec {
    if name in p then Apply(p[name], a) else []
  }

  /** x + W a + b, with the bias optional, for every token. */
  ghost function Residual(p: Params, weight: Key, bias: Key, x: Stream, a: Stream): Stream {
    seq(|x|, t requires 0 <= t < |x| =>
      var inner := if t < |a| then a[t] else [];
      Add(Add(x[t], Term(p, weight, inner)), Term(p, bias, inner)))
  }

  type Inner = (Params, Stream) -> Stream

  /** A pre-norm residual layer: attention and MLP are arbitrary up to their output projections. */
  ghost function Layer(p: Params, attn: Inner, mlp: Inner, x: Stream): Stream {
    var h := Residual(p, OWeight, OBias, x, attn(p, x));
    Residual(p, DownWeight, DownBias, h, mlp(p, h))
  }

  ghost function EvalStack(w: Weights, n: nat, attn: Inner, mlp: Inner, x: Stream): Stream {
    if n == 0 then x else Layer(LayerParams(w, n - 1), attn, mlp, EvalStack(w, n - 1, attn, mlp, x))
  }

  /** The weights outside the layers: embeddings, the final norm, the head. */
  ghost function Outside(w: Weights): Weights {
    map k | k in w && !Numbered(k) :: w[k]
  }

  ghost predicate IsZero(v: Vec) {
    forall i :: 0 <= i < |v| ==> v[i] == 0.0
  }

  lemma {:induction false} DotZero(a: Vec, b: Vec)
    requires IsZero(a)
    ensures Dot(a, b) == 0.0
  {
    if |a| > 0 && |b| > 0 {
      DotZero(a[1..], b[1..]);
    }
  }

  lemma ZerosApply(t: Tensor, a: Vec)
    ensures IsZero(Apply(ZerosLike(t), a))
  {
    if t.Matrix? {
      forall r | 0 <= r < |t.rows|
        ensures Apply(ZerosLike(t), a)[r] == 0.0
      {
        DotZero(Zero(|t.rows[r]|), a);
      }
    }
  }

  ghost function Zeroed(p: Params): Params {
    imap rest: Key | rest in p :: Weight(rest, p[rest], true)
  }

  lemma AddZero(x: Vec, y: Vec)
    requires IsZero(y)
    ensures Add(x, y) == x
  {
  }

  lemma ResidualZero(p: Params, weight: Key, bias: Key, x: Stream, a: Stream)
    requires Projects(weight) && Projects(bias)
    ensures Residual(Zeroed(p), weight, bias, x, a) == x
  {
    forall t | 0 <= t < |x|
      ensures Residual(Zeroed(p), weight, bias, x, a)[t] == x[t]
    {
      var inner := if t < |a| then a[t] else [];
      forall name | name == weight || name == bias
        ensures IsZero(Term(Zeroed(p), name, inner))
      {
        if name in p {
          ZerosApply(p[name], inner);
        }
      }
      AddZero(x[t], Term(Zeroed(p), weight, inner));
      AddZero(x[t], Term(Zeroed(p), bias, inner));
    }
  }

  lemma OutputNames()
    ensures Projects(OWeight) && Projects(OBias) && Projects(DownWeight) && Projects(DownBias)
  {
    var o, d := "o_proj", "down_proj";
    assert o[0..6] == o && d[0..9] == d;
    assert Contains(o, "o_proj") && Contains(d, "down_proj");
    assert OWeight[1].text == o && OBias[1].text == o && DownWeight[1].text == d && DownBias[1].text == d;
  }

  /** A layer whose output projections are zero leaves the residual stream as it is. */
  lemma ZeroedIsIdentity(p: Params, attn: Inner, mlp: Inner, x: Stream)
    ensures Layer(Zeroed(p), attn, mlp, x) == x
  {
    OutputNames();
    ResidualZero(p, OWeight, OBias, x, attn(Zeroed(p), x));
    ResidualZero(p, DownWeight, DownBias, x, mlp(Zeroed(p), x));
  }

  // ---------------------------------------------------------------- the expansion preserves the model

  /** What the weights of slot sl should be. */
  ghost function SlotParams(w: Weights, sl: Slot): Params {
    if sl.inserted then Zeroed(LayerParams(w, sl.from)) else LayerParams(w, sl.from)
  }

  /** Every output layer is the layer its slot was read from, or its zeroed copy. */
  ghost predicate Faithful(w: Weights, out: Weights, slots: seq<Slot>) {
    forall j :: 0 <= j < |slots| ==> LayerParams(out, j) == SlotParams(w, slots[j])
  }

  /** No weight of layer number j is missing from the layer that slot j is read from, so the last loop has
      nothing of layer j to copy. */
  ghost predicate NothingStale(w: Weights, slots: seq<Slot>) {
    forall j, rest: Key :: 0 <= j < |slots| && rest != [] && LayerKey(j, rest) in w ==>
      LayerKey(slots[j].from, rest) in w
  }

  lemma LayerKeyNumber(j: nat, rest: Key, i: nat)
    requires rest != []
    ensures Numbered(LayerKey(j, rest)) && Index(LayerKey(j, rest)) == j
    ensures Renumber(LayerKey(j, rest), i) == LayerKey(i, rest)
  {
    PositionIs(LayerKey(j, rest), 1, 2);
  }

  lemma LayerKeyProjects(j: nat, rest: Key)
    ensures Projects(LayerKey(j, rest)) == Projects(rest)
  {
    var key := LayerKey(j, rest);
    assert forall p :: 0 <= p < |rest| ==> key[p + 3] == rest[p];
    assert forall p :: 3 <= p < |key| ==> key[p] == rest[p - 3];
    NoProjection("model");
    NoProjection("layers");
  }

  lemma NoProjection(text: string)
    requires |text| <= 6 && (|text| == 6 ==> text[0] != 'o')
    ensures !Contains(text, "down_proj") && !Contains(text, "o_proj")
  {
    forall a, b | 0 <= a <= b <= |text|
      ensures text[a..b] != "down_proj" && text[a..b] != "o_proj"
    {
      if |text[a..b]| == 6 {
        assert text[a..b][0] == text[0];
      }
    }
  }

  lemma SlotEntry(order: seq<Key>, w: Weights, layers: nat, split: int, j: nat, rest: Key)
    requires SingleNames(w, layers) && Listing(order, w) && (layers == 0 || split != 0)
    requires j < |Slots(layers, split)| && rest != []
    ensures var out, sl := Expand(order, w, layers, split), Slots(layers, split)[j];
            if LayerKey(sl.from, rest) in w then
              && LayerKey(j, rest) in out
              && out[LayerKey(j, rest)] == Weight(rest, w[LayerKey(sl.from, rest)], sl.inserted)
            else
              LayerKey(j, rest) in out <==> LayerKey(j, rest) in w
  {
    var from := Slots(layers, split)[j].from;
    LayerKeyNumber(j, rest, from);
    LayerKeyProjects(from, rest);
    EveryEntry(order, w, layers, split, LayerKey(j, rest));
  }

  lemma FaithfulSlot(order: seq<Key>, w: Weights, layers: nat, split: int, j: nat)
    requires SingleNames(w, layers) && Listing(order, w) && (layers == 0 || split != 0)
    requires j < |Slots(layers, split)| && NothingStale(w, Slots(layers, split))
    ensures LayerParams(Expand(order, w, layers, split), j) == SlotParams(w, Slots(layers, split)[j])
  {
    var out, sl := Expand(order, w, layers, split), Slots(layers, split)[j];
    var got, want := LayerParams(out, j), SlotParams(w, sl);
    forall rest: Key
      ensures rest in got <==> rest in want
      ensures rest in got ==> got[rest] == want[rest]
    {
      if rest != [] {
        SlotEntry(order, w, layers, split, j, rest);
      }
    }
  }

  lemma StaleShows(order: seq<Key>, w: Weights, layers: nat, split: int, j: nat, rest: Key)
    requires SingleNames(w, layers) && Listing(order, w) && (layers == 0 || split != 0)
    requires j < |Slots(layers, split)| && rest != [] && LayerKey(j, rest) in w
    requires LayerKey(Slots(layers, split)[j].from, rest) !in w
    ensures LayerParams(Expand(order, w, layers, split), j) != SlotParams(w, Slots(layers, split)[j])
  {
    SlotEntry(order, w, layers, split, j, rest);
    assert rest in LayerParams(Expand(order, w, layers, split), j);
    assert rest !in SlotParams(w, Slots(layers, split)[j]);
  }

  /** The expansion is faithful exactly when nothing is stale. */
  lemma {:induction false} FaithfulUnlessStale(order: seq<Key>, w: Weights, layers: nat, split: int)
    requires SingleNames(w, layers) && Listing(order, w) && (layers == 0 || split != 0)
    ensures var slots := Slots(layers, split);
            Faithful(w, Expand(order, w, layers, split), slots) <==> NothingStale(w, slots)
  {
    var out, slots := Expand(order, w, layers, split), Slots(layers, split);
    if NothingStale(w, slots) {
      forall j | 0 <= j < |slots|
        ensures LayerParams(out, j) == SlotParams(w, slots[j])
      {
        FaithfulSlot(order, w, layers, split, j);
      }
    }
    if Faithful(w, out, slots) {
      forall j, rest: Key | 0 <= j < |slots| && rest != [] && LayerKey(j, rest) in w
        ensures LayerKey(slots[j].from, rest) in w
      {
        if LayerKey(slots[j].from, rest) !in w {
          StaleShows(order, w, layers, split, j, rest);
          assert false;
        }
      }
    }
  }

  /** Every layer has the same weights, and there are no others. */
  ghost predicate Uniform(w: Weights, layers: nat) {
    && (forall i, j, rest: Key :: 0 <= i < layers && 0 <= j < layers ==>
          (LayerKey(i, rest) in w <==> LayerKey(j, rest) in w))
    && (forall j, rest: Key :: layers <= j ==> LayerKey(j, rest) !in w)
  }

  lemma {:induction false} SlotsInRange(n: nat, split: int)
    requires n == 0 || split != 0
    ensures forall j :: 0 <= j < |Slots(n, split)| ==> Slots(n, split)[j].from < n
  {
    if n > 0 {
      SlotsInRange(n - 1, split);
    }
  }

  lemma UniformNotStale(w: Weights, layers: nat, split: int)
    requires layers == 0 || split != 0
    requires Uniform(w, layers)
    ensures NothingStale(w, Slots(layers, split))
  {
    SlotsInRange(layers, split);
  }

  /** The first n output layers compute what the first i input layers compute. */
  ghost predicate SameStack(w: Weights, i: nat, out: Weights, n: nat, attn: Inner, mlp: Inner, x: Stream) {
    EvalStack(out, n, attn, mlp, x) == EvalStack(w, i, attn, mlp, x)
  }

  lemma CopySlot(w: Weights, i: nat, out: Weights, n: nat, attn: Inner, mlp: Inner, x: Stream)
    requires SameStack(w, i, out, n, attn, mlp, x) && LayerParams(out, n) == LayerParams(w, i)
    ensures SameStack(w, i + 1, out, n + 1, attn, mlp, x)
  {
  }

  lemma InsertedSlot(w: Weights, i: nat, from: nat, out: Weights, n: nat, attn: Inner, mlp: Inner, x: Stream)
    requires SameStack(w, i, out, n, attn, mlp, x) && LayerParams(out, n) == Zeroed(LayerParams(w, from))
    ensures SameStack(w, i, out, n + 1, attn, mlp, x)
  {
    ZeroedIsIdentity(LayerParams(w, from), attn, mlp, EvalStack(out, n, attn, mlp, x));
  }

  /** The slots read layers 0, 1, ... in order, each of them followed by at most its own copies. */
  ghost predicate Layered(slots: seq<Slot>, i: nat) {
    if |slots| == 0 then i == 0
    else
      var front, last := slots[..|slots| - 1], slots[|slots| - 1];
      i > 0 && last.from == i - 1 && Layered(front, if last.inserted then i else i - 1)
  }

  lemma LayeredSnoc(slots: seq<Slot>, i: nat, sl: Slot)
    requires Layered(slots, i) && (if sl.inserted then i > 0 && sl.from == i - 1 else sl.from == i)
    ensures Layered(slots + [sl], if sl.inserted then i else i + 1)
  {
    assert (slots + [sl])[..|slots|] == slots;
  }

  lemma {:induction false} SlotsLayered(i: nat, split: int)
    requires i == 0 || split != 0
    ensures Layered(Slots(i, split), i)
  {
    if i > 0 {
      SlotsLayered(i - 1, split);
      SlotsLast(i, split);
      LayeredSnoc(Slots(i - 1, split), i - 1, Slot(i - 1, false));
      LayeredSnoc(Slots(i - 1, split) + [Slot(i - 1, false)], i, Slot(i - 1, true));
    }
  }

  lemma FaithfulFront(w: Weights, out: Weights, slots: seq<Slot>)
    requires |slots| > 0 && Faithful(w, out, slots)
    ensures Faithful(w, out, slots[..|slots| - 1])
    ensures LayerParams(out, |slots| - 1) == SlotParams(w, slots[|slots| - 1])
  {
  }

  /** The layers written for the first i layers compute what those compute. */
  lemma {:induction false} StackOf(w: Weights, out: Weights, slots: seq<Slot>, i: nat, attn: Inner, mlp: Inner,
                                   x: Stream)
    requires Faithful(w, out, slots) && Layered(slots, i)
    ensures SameStack(w, i, out, |slots|, attn, mlp, x)
    decreases |slots|
  {
    if |slots| > 0 {
      var front, last := slots[..|slots| - 1], slots[|slots| - 1];
      FaithfulFront(w, out, slots);
      if last.inserted {
        StackOf(w, out, front, i, attn, mlp, x);
        InsertedSlot(w, i, last.from, out, |front|, attn, mlp, x);
      } else {
        StackOf(w, out, front, i - 1, attn, mlp, x);
        CopySlot(w, i - 1, out, |front|, attn, mlp, x);
      }
    }
  }

  lemma OutsideKept(order: seq<Key>, w: Weights, layers: nat, split: int)
    requires SingleNames(w, layers) && Listing(order, w) && (layers == 0 || split != 0)
    ensures Outside(Expand(order, w, layers, split)) == Outside(w)
  {
    var out := Expand(order, w, layers, split);
    forall k
      ensures k in Outside(out) <==> k in Outside(w)
      ensures k in Outside(out) ==> Outside(out)[k] == Outside(w)[k]
    {
      EveryEntry(order, w, layers, split, k);
    }
  }

  /** The whole model: embed, run the layers, read off the result. */
  ghost function Evaluate<In, Out>(w: Weights, layers: nat, attn: Inner, mlp: Inner,
                                   embed: (Weights, In) -> Stream, head: (Weights, Stream) -> Out, input: In): Out {
    head(Outside(w), EvalStack(w, layers, attn, mlp, embed(Outside(w), input)))
  }

  lemma Preserved<In, Out>(order: seq<Key>, w: Weights, layers: nat, split: int, attn: Inner, mlp: Inner,
                           embed: (Weights, In) -> Stream, head: (Weights, Stream) -> Out, input: In)
    requires SingleNames(w, layers) && Listing(order, w) && (layers == 0 || split != 0)
    requires NothingStale(w, Slots(layers, split))
    ensures Evaluate(Expand(order, w, layers, split), |Slots(layers, split)|, attn, mlp, embed, head, input)
         == Evaluate(w, layers, attn, mlp, embed, head, input)
  {
    var out := Expand(order, w, layers, split);
    FaithfulUnlessStale(order, w, layers, split);
    OutsideKept(order, w, layers, split);
    SlotsLayered(layers, split);
    StackOf(w, out, Slots(layers, split), layers, attn, mlp, embed(Outside(w), input));
  }

  /** The expanded model computes what the original computes, with the layer count written to its configuration. */
  lemma MeaningPreserved<In, Out>(order: seq<Key>, w: Weights, layers: nat, numExpand: int, attn: Inner, mlp: Inner,
                                  embed: (Weights, In) -> Stream, head: (Weights, Stream) -> Out, input: In)
    requires SingleNames(w, layers) && Listing(order, w) && Uniform(w, layers)
    requires numExpand > 0 && layers > 0 && layers % numExpand == 0
    ensures layers / numExpand != 0
    ensures Evaluate(Expand(order, w, layers, layers / numExpand), layers + numExpand, attn, mlp, embed, head, input)
         == Evaluate(w, layers, attn, mlp, embed, head, input)
  {
    AnnouncedLayers(layers, numExpand);
    var split := layers / numExpand;
    UniformNotStale(w, layers, split);
    Preserved(order, w, layers, split, attn, mlp, embed, head, input);
  }

  /** Exactly layers 0..layers + numExpand - 1 have weights in the result, when each input layer has some. */
  lemma ExactLayers(order: seq<Key>, w: Weights, layers: nat, numExpand: int, j: nat, rest: Key)
    requires SingleNames(w, layers) && Listing(order, w) && Uniform(w, layers)
    requires numExpand > 0 && layers > 0 && layers % numExpand == 0
    requires rest != [] && LayerKey(0, rest) in w
    ensures layers / numExpand != 0
    ensures LayerKey(j, rest) in Expand(order, w, layers, layers / numExpand) <==> j < layers + numExpand
  {
    AnnouncedLayers(layers, numExpand);
    var split := layers / numExpand;
    SlotsInRange(layers, split);
    if j < layers + numExpand {
      SlotEntry(order, w, layers, split, j, rest);
    } else {
      LayerKeyNumber(j, rest, 0);
      EveryEntry(order, w, layers, split, LayerKey(j, rest));
    }
  }

  // ---------------------------------------------------------------- names with a second layer number

  lemma CopySingle(key: Key, w: Weights, i: nat, at: nat, inserted: bool, out: Weights)
    requires key in w && Mentions(key, i)
    ensures CopyLayer([key], w, i, at, inserted, out) == out[ChangeName(key, i, at) := Weight(key, w[key], inserted)]
  {
    var order := [key];
    assert order[..0] == [] && order[|order| - 1] == key;
    assert CopyLayer(order[..0], w, i, at, inserted, out) == out;
  }

  lemma OneLayerModel(key: Key, t: Tensor)
    requires Numbered(key) && Index(key) == 0
    ensures Expand([key], map[key := t], 1, 1).Keys == {key, ChangeName(key, 0, 1)}
  {
    var order, w := [key], map[key := t];
    MentionsFirst(key);
    ChangeSame(key, 1, 0);
    CopySingle(key, w, 0, 0, false, map[]);
    var first := CopyLayer(order, w, 0, 0, false, map[]);
    CopySingle(key, w, 0, 1, true, first);
    assert Layers(order, w, 1, 1) == CopyLayer(order, w, 0, 1, true, first) by {
      assert Slots(0, 1) == [];
      assert Layers(order, w, 0, 1) == map[];
    }
    var out := Layers(order, w, 1, 1);
    forall k
      ensures k in AddRest(order, w, out) <==> k in out
    {
      RestEntry(order, w, out, k);
    }
    assert AddRest(order, w, out).Keys == out.Keys;
  }

  /** In a model of one layer the inserted layer gets a weight exactly when its name has no second 0, such as the
      number of an expert: otherwise both numbers are changed, and the weight is missing under its own name. */
  lemma TwoNumbersBreak(key: Key, t: Tensor)
    requires Numbered(key) && Index(key) == 0
    ensures Renumber(key, 1) in Expand([key], map[key := t], 1, 1) <==> OneLayerNumber(key, 1)
  {
    OneLayerModel(key, t);
    RenameFirst(key, 1);
    assert Renumber(key, 1)[Position(key)] == Num(1);
    if OneLayerNumber(key, 1) {
      RenamedIfSingle(key, 1, 0);
      MentionsFirst(key);
    }
    if !MatchesFrom(key, Position(key) + 2, 0) {
      MentionsFirst(key);
      forall q | 0 < q < |key| - 1 && key[q].Num? && key[q].n < 1 && q != Position(key)
        ensures q == Position(key) + 1 && key[q] == key[Position(key)]
      {
        assert q > Position(key);
      }
    }
  }
}
