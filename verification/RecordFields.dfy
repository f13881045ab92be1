/** Shape-checked projection of a record's fields into a requested order, by swapping in place. */
module RecordFields {
  import opened Wrappers
  import opened Sequences

  datatype Descriptor<V> = Record(name: string, fields: seq<(string, V)>) | NotRecord

  datatype AdapterError = ShapeMismatch

  function Labels<V>(fields: seq<(string, V)>): (labels: seq<string>)
    ensures |labels| == |fields|
    ensures forall i | 0 <= i < |fields| :: labels[i] == fields[i].0
  {
    seq(|fields|, i requires 0 <= i < |fields| => fields[i].0)
  }

  function Paired<V>(names: seq<string>, values: seq<V>): (fields: seq<(string, V)>)
    requires |names| == |values|
    ensures |fields| == |names|
    ensures forall i | 0 <= i < |names| :: fields[i] == (names[i], values[i])
  {
    seq(|names|, i requires 0 <= i < |names| => (names[i], values[i]))
  }

  /** The shapes a projection accepts: the right record, each of its fields requested exactly once. */
  ghost predicate Accepts<V(!new)>(value: Descriptor<V>, name: string, names: seq<string>) {
    && value.Record? && value.name == name
    && Distinct(names) && multiset(names) == multiset(Labels(value.fields))
  }

  // ---------------------------------------------------------------- permutations of fields

  lemma LabelsDrop<V>(fields: seq<(string, V)>, i: nat)
    requires i < |fields|
    ensures multiset(Labels(fields)) == multiset(Labels(fields[..i] + fields[i + 1..])) + multiset{fields[i].0}
    ensures multiset(fields) == multiset(fields[..i] + fields[i + 1..]) + multiset{fields[i]}
  {
    var labels := Labels(fields);
    assert labels == labels[..i] + [labels[i]] + labels[i + 1..];
    assert fields == fields[..i] + [fields[i]] + fields[i + 1..];
    assert Labels(fields[..i] + fields[i + 1..]) == labels[..i] + labels[i + 1..];
  }

  /** Permuting fields permutes their labels. */
  lemma {:induction false} LabelsPermute<V>(a: seq<(string, V)>, b: seq<(string, V)>)
    requires multiset(a) == multiset(b)
    ensures multiset(Labels(a)) == multiset(Labels(b))
    decreases |a|
  {
    if a == [] {
      assert |multiset(b)| == |b|;
    } else {
      assert a[0] in multiset(b);
      var j :| 0 <= j < |b| && b[j] == a[0];
      LabelsDrop(a, 0);
      LabelsDrop(b, j);
      var rest, others := a[..0] + a[1..], b[..j] + b[j + 1..];
      assert multiset(rest) == multiset(a) - multiset{a[0]};
      assert multiset(others) == multiset(b) - multiset{a[0]};
      LabelsPermute(rest, others);
    }
  }

  /** With distinct requested names, at most one sequence of values pairs up to the given fields. */
  lemma PairingUnique<V>(names: seq<string>, a: seq<V>, b: seq<V>)
    requires Distinct(names) && |a| == |b| == |names|
    requires multiset(Paired(names, a)) == multiset(Paired(names, b))
    ensures a == b
  {
    forall i | 0 <= i < |a|
      ensures a[i] == b[i]
    {
      assert Paired(names, a)[i] in multiset(Paired(names, b));
      var j :| 0 <= j < |b| && Paired(names, b)[j] == (names[i], a[i]);
      assert names[j] == names[i];
    }
  }

  /** Some field has this label. */
  ghost predicate Named<V(!new)>(fields: seq<(string, V)>, name: string) {
    exists i :: 0 <= i < |fields| && fields[i].0 == name
  }

  lemma {:induction false} OnceEach(names: seq<string>, x: string)
    requires Distinct(names)
    ensures multiset(names)[x] <= 1
  {
    if names != [] {
      var init, last := names[..|names| - 1], names[|names| - 1];
      assert names == init + [last];
      OnceEach(init, x);
      if x == last {
        assert x !in init;
      }
    }
  }

  lemma SameSize<T>(a: multiset<T>, b: multiset<T>)
    requires a <= b && |a| == |b|
    ensures a == b
  {
    assert a + (b - a) == b;
    assert |b - a| == 0;
  }

  /** A shape is accepted exactly if it has this name, as many fields as names, and one for every name, each once. */
  lemma AcceptsExactly<V(!new)>(value: Descriptor<V>, name: string, names: seq<string>)
    ensures Accepts(value, name, names) <==>
            && value.Record? && value.name == name && |value.fields| == |names|
            && (forall i, j | 0 <= i < j < |names| :: names[i] != names[j])
            && forall i | 0 <= i < |names| :: Named(value.fields, names[i])
  {
    if value.Record? {
      var labels := Labels(value.fields);
      forall i | 0 <= i < |names|
        ensures Named(value.fields, names[i]) <==> names[i] in multiset(labels)
      {
        if Named(value.fields, names[i]) {
          var k :| 0 <= k < |value.fields| && value.fields[k].0 == names[i];
          assert labels[k] == names[i];
        }
      }
      if multiset(names) == multiset(labels) {
        assert |multiset(names)| == |names| && |multiset(labels)| == |labels|;
        assert forall i | 0 <= i < |names| :: names[i] in multiset(names);
      } else if Distinct(names) && |labels| == |names| && forall i | 0 <= i < |names| :: names[i] in multiset(labels) {
        forall x
          ensures multiset(names)[x] <= multiset(labels)[x]
        {
          OnceEach(names, x);
        }
        SameSize(multiset(names), multiset(labels));
      }
    }
  }

  // ---------------------------------------------------------------- the loop

  lemma MissingName<V(!new)>(fields: seq<(string, V)>, names: seq<string>, index: nat)
    requires index < |names| == |fields| && Distinct(names)
    requires forall k | 0 <= k < index :: fields[k].0 == names[k]
    requires forall k | index <= k < |fields| :: fields[k].0 != names[index]
    ensures multiset(names) != multiset(Labels(fields))
  {
    var labels := Labels(fields);
    forall k | 0 <= k < |labels|
      ensures labels[k] != names[index]
    {
      if k < index {
        assert names[k] != names[index];
      }
    }
    assert names[index] in multiset(names) && names[index] !in multiset(labels);
  }

  /** The search for a field with this label in the part not yet selected. */
  method Position<V>(fields: array<(string, V)>, start: nat, name: string) returns (found: Option<nat>)
    requires start <= fields.Length
    ensures found.None? ==> forall k | start <= k < fields.Length :: fields[k].0 != name
    ensures found.Some? ==> start <= found.value < fields.Length && fields[found.value].0 == name
  {
    for k := start to fields.Length
      invariant forall j | start <= j < k :: fields[j].0 != name
    {
      if fields[k].0 == name {
        return Some(k);
      }
    }
    found := None;
  }

  /** The first `index` slots hold the fields requested there, and nothing was lost. */
  ghost predicate Selected<V(!new)>(given: seq<(string, V)>, fields: seq<(string, V)>, names: seq<string>, index: nat) {
    && index <= |names| == |fields| && multiset(fields) == multiset(given)
    && (forall k | 0 <= k < index :: fields[k].0 == names[k])
    && Distinct(names[..index])
  }

  lemma SelectNext<V(!new)>(given: seq<(string, V)>, fields: seq<(string, V)>, names: seq<string>, index: nat,
      found: nat)
    requires Selected(given, fields, names, index) && index <= found < |names|
    requires fields[found].0 == names[index] && names[index] !in names[..index]
    ensures Selected(given, fields[index := fields[found]][found := fields[index]], names, index + 1)
  {
    assert names[..index + 1] == names[..index] + [names[index]];
  }

  lemma SelectFails<V(!new)>(given: seq<(string, V)>, fields: seq<(string, V)>, names: seq<string>, index: nat)
    requires Selected(given, fields, names, index) && index < |names|
    requires names[index] in names[..index] || forall k | index <= k < |fields| :: fields[k].0 != names[index]
    ensures !(Distinct(names) && multiset(names) == multiset(Labels(given)))
  {
    if Distinct(names) {
      LabelsPermute(fields, given);
      MissingName(fields, names, index);
    }
  }

  lemma SelectEnds<V(!new)>(given: seq<(string, V)>, fields: seq<(string, V)>, names: seq<string>)
    requires Selected(given, fields, names, |names|)
    ensures Distinct(names) && multiset(names) == multiset(Labels(given)) && Labels(fields) == names
  {
    assert names[..|names|] == names && Labels(fields) == names;
    LabelsPermute(fields, given);
  }

  /** The in-place selection: on success slot `i` holds the field requested at `i`; nothing is ever lost. */
  method Select<V(!new)>(fields: array<(string, V)>, names: seq<string>) returns (selected: bool)
    requires fields.Length == |names|
    modifies fields
    ensures multiset(fields[..]) == multiset(old(fields[..]))
    ensures selected <==> Distinct(names) && multiset(names) == multiset(Labels(old(fields[..])))
    ensures selected ==> Labels(fields[..]) == names
  {
    ghost var given := fields[..];
    for index := 0 to |names|
      invariant Selected(given, fields[..], names, index)
    {
      if names[index] in names[..index] {
        SelectFails(given, fields[..], names, index);
        return false;
      }
      var found := Position(fields, index, names[index]);
      match found
      case None =>
        SelectFails(given, fields[..], names, index);
        return false;
      case Some(position) =>
        SelectNext(given, fields[..], names, index, position);
        ghost var before := fields[..];
        fields[index], fields[position] := fields[position], fields[index];
        assert fields[..] == before[index := before[position]][position := before[index]];
    }
    SelectEnds(given, fields[..], names);
    selected := true;
  }

  /** `into_record_fields`: every accepted shape gives back exactly its values, each in its requested slot. */
  method IntoRecordFields<V(!new)>(value: Descriptor<V>, name: string, names: seq<string>)
    returns (r: Result<seq<V>, AdapterError>)
    ensures r.Success? <==> Accepts(value, name, names)
    ensures r.Success? ==> |r.value| == |names| && multiset(Paired(names, r.value)) == multiset(value.fields)
  {
    match value
    case NotRecord => return Failure(ShapeMismatch);
    case Record(actual, given) =>
    if actual != name {
      return Failure(ShapeMismatch);
    }
    if |given| != |names| {
      assert |multiset(Labels(given))| == |given| && |multiset(names)| == |names|;
      return Failure(ShapeMismatch);
    }
    var fields := new (string, V)[|names|](i requires 0 <= i < |given| => given[i]);
    assert fields[..] == given;
    var selected := Select(fields, names);
    if !selected {
      return Failure(ShapeMismatch);
    }
    var values := seq(|names|, i requires 0 <= i < |names| reads fields => fields[i].1);
    assert Paired(names, values) == fields[..] by {
      forall i | 0 <= i < |names|
        ensures Paired(names, values)[i] == fields[i]
      {
        assert Labels(fields[..])[i] == fields[i].0;
      }
    }
    r := Success(values);
  }

  /** The values a projection gives, told by its acceptance and by the pairing alone. */
  ghost predicate Projects<V(!new)>(value: Descriptor<V>, name: string, names: seq<string>, values: seq<V>) {
    && Accepts(value, name, names) && |values| == |names|
    && multiset(Paired(names, values)) == multiset(value.fields)
  }

  /** The order in which a record's fields arrive changes neither acceptance nor the projected values. */
  lemma FieldOrderDoesNotMatter<V(!new)>(name: string, names: seq<string>, fields: seq<(string, V)>,
        shuffled: seq<(string, V)>, a: seq<V>, b: seq<V>)
    requires multiset(fields) == multiset(shuffled)
    ensures Accepts(Record(name, fields), name, names) <==> Accepts(Record(name, shuffled), name, names)
    ensures Projects(Record(name, fields), name, names, a) && Projects(Record(name, shuffled), name, names, b) ==>
        a == b
  {
    LabelsPermute(fields, shuffled);
    if Projects(Record(name, fields), name, names, a) && Projects(Record(name, shuffled), name, names, b) {
      PairingUnique(names, a, b);
    }
  }

  /** Building a record from distinctly named values and projecting it gives the values back. */
  lemma ConstructionProjects<V(!new)>(name: string, names: seq<string>, values: seq<V>, projected: seq<V>)
    requires Distinct(names) && |values| == |names|
    ensures Projects(Record(name, Paired(names, values)), name, names, projected) <==> projected == values
  {
    assert Labels(Paired(names, values)) == names;
    if Projects(Record(name, Paired(names, values)), name, names, projected) {
      PairingUnique(names, projected, values);
    }
  }
}
