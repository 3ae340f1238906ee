/**
 What a JavaScript array is to its users, whatever holds its elements: a length and a map from
 indices to elements.  Both representations of arrays are proved to be this.
 */
module ArrayModel {
  import opened Options

  /** The largest length; indices are smaller. */
  const MAX_LENGTH: nat := 0xFFFF_FFFF

  /** An element: a plain value, or a property with attributes of its own. */
  datatype Cell<V> = Plain(value: V) | Prop(value: V, writable: bool, configurable: bool)

  /** Properties named by integers too large to be indices are among the ordinary ones, here `others`. */
  datatype Array<V> = Array(length: nat, elements: map<nat, Cell<V>>, others: map<nat, V>, extensible: bool,
    lengthWritable: bool)

  ghost predicate WellFormed<V>(a: Array<V>) {
    a.length <= MAX_LENGTH && forall i :: i in a.elements ==> i < a.length
  }

  /** A cell that cannot be removed. */
  predicate Fixed<V>(c: Cell<V>) {
    c.Prop? && !c.configurable
  }

  /** The length left after deleting from `n` down to `l`, stopping at a cell that cannot be removed. */
  function Kept<V>(elements: map<nat, Cell<V>>, l: nat, n: nat): (k: nat)
    decreases n
  {
    if n <= l then l
    else if n - 1 in elements && Fixed(elements[n - 1]) then n
    else Kept(elements, l, n - 1)
  }

  ghost function Below<V>(elements: map<nat, Cell<V>>, n: nat): map<nat, Cell<V>> {
    map i | i in elements && i < n :: elements[i]
  }

  /** An array after an operation, and whether that succeeded. */
  datatype Result<V> = Result(after: Array<V>, ok: bool)

  ghost function Resized<V>(a: Array<V>, l: nat): Result<V> {
    if l > MAX_LENGTH || !a.lengthWritable then Result(a, false)
    else
      var k := Kept(a.elements, l, a.length);
      Result(a.(length := k, elements := Below(a.elements, k)), k == l)
  }

  ghost function Assigned<V>(a: Array<V>, i: nat, v: V): Result<V> {
    if i >= MAX_LENGTH then
      if i in a.others || a.extensible then Result(a.(others := a.others[i := v]), true) else Result(a, false)
    else if i in a.elements then
      match a.elements[i]
      case Plain(_) => Result(a.(elements := a.elements[i := Plain(v)]), true)
      case Prop(_, w, c) => if w then Result(a.(elements := a.elements[i := Prop(v, w, c)]), true) else Result(a, false)
    else if !a.extensible then Result(a, false)
    else if i < a.length then Result(a.(elements := a.elements[i := Plain(v)]), true)
    else if !a.lengthWritable then Result(a, false)
    else Result(a.(length := i + 1, elements := a.elements[i := Plain(v)]), true)
  }

  ghost function Deleted<V>(a: Array<V>, i: nat): Result<V> {
    if i >= MAX_LENGTH then Result(a.(others := a.others - {i}), true)
    else if i in a.elements && Fixed(a.elements[i]) then Result(a, false)
    else Result(a.(elements := a.elements - {i}), true)
  }

  // ---------------------------------------------------------------------------------------
  // What the operations keep

  /** The length kept is the least one not below `l` that loses no fixed cell. */
  lemma {:induction false} KeptTells<V>(elements: map<nat, Cell<V>>, l: nat, n: nat)
    ensures var k := Kept(elements, l, n); l <= k && (k > l ==> k <= n && k - 1 in elements && Fixed(elements[k - 1]))
    ensures forall i :: i in elements && Kept(elements, l, n) <= i < n ==> !Fixed(elements[i])
    decreases n
  {
    if n > l && !(n - 1 in elements && Fixed(elements[n - 1])) {
      KeptTells(elements, l, n - 1);
    }
  }

  /** ... and it is the only such. */
  lemma KeptIs<V>(elements: map<nat, Cell<V>>, l: nat, n: nat, k: nat)
    requires l <= k && (k > l ==> k <= n && k - 1 in elements && Fixed(elements[k - 1]))
    requires forall i :: i in elements && k <= i < n ==> !Fixed(elements[i])
    ensures Kept(elements, l, n) == k
  {
    KeptTells(elements, l, n);
  }

  // What users see of them

  /** What reading an index gives. */
  ghost function Read<V>(a: Array<V>, i: nat): Option<V> {
    if i >= MAX_LENGTH then (if i in a.others then Some(a.others[i]) else None)
    else if i in a.elements then Some(a.elements[i].value)
    else None
  }

  /** The attributes an element has, those of a plain one included. */
  predicate SameAttributes<V>(c: Cell<V>, d: Cell<V>) {
    c.Prop? == d.Prop? && (c.Prop? ==> c.writable == d.writable && c.configurable == d.configurable)
  }

  /** Assignment changes what is read at the index and nothing else, or is refused and changes nothing. */
  lemma AssignTells<V>(a: Array<V>, i: nat, v: V, j: nat)
    requires WellFormed(a)
    ensures var r := Assigned(a, i, v);
      && (!r.ok ==> r.after == a)
      && (r.ok ==> Read(r.after, j) == if j == i then Some(v) else Read(a, j))
      && (j in a.elements ==> j in r.after.elements && SameAttributes(a.elements[j], r.after.elements[j]))
      && (j in r.after.elements && j !in a.elements ==> r.ok && j == i && r.after.elements[j].Plain?)
      && (r.ok && i < MAX_LENGTH && i >= a.length ==> r.after.length == i + 1)
      && (i >= MAX_LENGTH || i < a.length ==> r.after.length == a.length)
  {
  }

  /** It is refused for a read-only element, and for a new one where the array or its length may not grow. */
  lemma AssignRefused<V>(a: Array<V>, i: nat, v: V)
    requires WellFormed(a)
    ensures !Assigned(a, i, v).ok <==>
      || (i in a.elements && a.elements[i].Prop? && !a.elements[i].writable)
      || (Read(a, i) == None && (!a.extensible || (a.length <= i < MAX_LENGTH && !a.lengthWritable)))
  {
  }

  /** Deletion leaves nothing to read at the index, or is refused for a fixed element and changes nothing. */
  lemma DeleteTells<V>(a: Array<V>, i: nat, j: nat)
    requires WellFormed(a)
    ensures var r := Deleted(a, i);
      && (r.ok <==> !(i in a.elements && Fixed(a.elements[i])))
      && (!r.ok ==> r.after == a)
      && (r.ok ==> Read(r.after, j) == if j == i then None else Read(a, j))
      && r.after.length == a.length
      && (j in r.after.elements ==> j in a.elements && r.after.elements[j] == a.elements[j])
  {
  }

  /** A change of length keeps what is below the new length, and stops above the last fixed element. */
  lemma ResizeTells<V>(a: Array<V>, l: nat, j: nat)
    requires WellFormed(a)
    ensures var r := Resized(a, l);
      && (l > MAX_LENGTH || !a.lengthWritable ==> !r.ok && r.after == a)
      && (l <= MAX_LENGTH && a.lengthWritable ==>
          && (r.ok <==> forall k :: l <= k && k in a.elements ==> !Fixed(a.elements[k]))
          && (r.ok ==> r.after.length == l)
          && (!r.ok ==> l < r.after.length <= a.length && r.after.length - 1 in a.elements
                        && Fixed(a.elements[r.after.length - 1])))
      && Read(r.after, j) == (if j < MAX_LENGTH && j >= r.after.length then None else Read(a, j))
      && (j in r.after.elements ==> j in a.elements && r.after.elements[j] == a.elements[j])
  {
    KeptTells(a.elements, l, a.length);
  }

  datatype Op<V> = SetOp(i: nat, v: V) | DeleteOp(i: nat) | SetLengthOp(l: nat)

  ghost function Apply<V>(a: Array<V>, op: Op<V>): Result<V> {
    match op
    case SetOp(i, v) => Assigned(a, i, v)
    case DeleteOp(i) => Deleted(a, i)
    case SetLengthOp(l) => Resized(a, l)
  }

  ghost function ApplyAll<V>(a: Array<V>, ops: seq<Op<V>>): Array<V> {
    if ops == [] then a else Apply(ApplyAll(a, ops[..|ops| - 1]), ops[|ops| - 1]).after
  }

  lemma StepIsWellFormed<V>(a: Array<V>, op: Op<V>)
    requires WellFormed(a)
    ensures WellFormed(Apply(a, op).after)
  {
    if op.SetLengthOp? { KeptTells(a.elements, op.l, a.length); }
  }

  /** Through any run, elements stay below the length, and a fixed cell stays, with its value if read-only. */
  lemma {:induction false} RunKeeps<V>(a: Array<V>, ops: seq<Op<V>>, i: nat)
    requires WellFormed(a)
    ensures WellFormed(ApplyAll(a, ops))
    ensures i in a.elements && Fixed(a.elements[i]) ==>
      i in ApplyAll(a, ops).elements && Fixed(ApplyAll(a, ops).elements[i])
        && ApplyAll(a, ops).elements[i].writable == a.elements[i].writable
    ensures i in a.elements && Fixed(a.elements[i]) && !a.elements[i].writable ==>
      ApplyAll(a, ops).elements[i] == a.elements[i]
    decreases |ops|
  {
    if ops != [] {
      var before := ApplyAll(a, ops[..|ops| - 1]);
      RunKeeps(a, ops[..|ops| - 1], i);
      var op := ops[|ops| - 1];
      StepIsWellFormed(before, op);
      if op.SetLengthOp? { KeptTells(before.elements, op.l, before.length); }
    }
  }

  // ---------------------------------------------------------------------------------------
  // Counting

  ghost function Props<V>(elements: map<nat, Cell<V>>): set<nat> {
    set i | i in elements && elements[i].Prop?
  }

  /** A counter that is never below the number of elements that are properties. */
  ghost predicate CountsProps<V>(n: int, elements: map<nat, Cell<V>>) {
    n >= |Props(elements)|
  }

  lemma NoProps<V>(elements: map<nat, Cell<V>>, n: int)
    requires CountsProps(n, elements) && n <= 0
    ensures forall i :: i in elements ==> elements[i].Plain?
  {
    assert Props(elements) == {};
    assert forall i :: i in elements && elements[i].Prop? ==> i in Props(elements);
  }

  /** Writing a value, or giving an element a new value in place, adds no property. */
  lemma CountAfterSet<V>(n: int, elements: map<nat, Cell<V>>, i: nat, c: Cell<V>)
    requires CountsProps(n, elements) && (c.Plain? || (i in elements && elements[i].Prop?))
    ensures CountsProps(n, elements[i := c])
  {
    assert Props(elements[i := c]) <= Props(elements);
    SubsetSize(Props(elements[i := c]), Props(elements));
  }

  lemma CountAfterDelete<V>(n: int, elements: map<nat, Cell<V>>, i: nat)
    requires CountsProps(n, elements) && i in elements
    ensures CountsProps(if elements[i].Prop? then n - 1 else n, elements - {i})
  {
    assert Props(elements - {i}) == Props(elements) - {i};
  }

  /** Dropping the top index from those counted. */
  lemma CountBelow<V>(n: int, elements: map<nat, Cell<V>>, i: nat)
    requires CountsProps(n, Below(elements, i + 1))
    ensures CountsProps(if i in elements && elements[i].Prop? then n - 1 else n, Below(elements, i))
  {
    var more, less := Below(elements, i + 1), Below(elements, i);
    if i in elements {
      assert less == more - {i};
      CountAfterDelete(n, more, i);
    } else {
      assert less == more;
    }
  }

  lemma CountOfFewer<V>(n: int, elements: map<nat, Cell<V>>, l: nat)
    requires CountsProps(n, elements)
    ensures CountsProps(n, Below(elements, l))
  {
    assert Props(Below(elements, l)) <= Props(elements);
    SubsetSize(Props(Below(elements, l)), Props(elements));
  }

  lemma SubsetSize(a: set<nat>, b: set<nat>)
    requires a <= b
    ensures |a| <= |b|
  {
    assert b == a + (b - a);
  }
}
