/** Strict decoding: refusing a protobuf message with unknown bytes anywhere in its tree. */
module UnknownFields {
  import opened Results

  /** A decoded message: the bytes of fields its schema does not know, and its set fields. */
  datatype Message = Message(unknown: seq<bv8>, fields: seq<Field>)

  datatype Field =
    | Scalars                              // a scalar, or a list of scalars
    | ScalarMap                            // a map whose values are scalars
    | MessageMap(values: seq<Message>)     // the values of a map to messages
    | MessageList(items: seq<Message>)
    | Singular(value: Message)
  {
    function Children(): seq<Message> {
      match this
      case MessageMap(values) => values
      case MessageList(items) => items
      case Singular(value) => [value]
      case _ => []
    }
  }

  /** `x` is `m` or lies below one of its fields. */
  ghost predicate Occurs(x: Message, m: Message)
    decreases m
  {
    x == m || exists f :: f in m.fields && OccursBelow(x, f)
  }

  ghost predicate OccursBelow(x: Message, f: Field)
    decreases f
  {
    match f
    case MessageMap(values) => exists c :: c in values && Occurs(x, c)
    case MessageList(items) => exists c :: c in items && Occurs(x, c)
    case Singular(value) => Occurs(x, value)
    case _ => false
  }

  ghost predicate Clean(m: Message) {
    forall x :: Occurs(x, m) ==> x.unknown == []
  }

  ghost predicate CleanBelow(f: Field) {
    forall x :: OccursBelow(x, f) ==> x.unknown == []
  }

  lemma CleanStep(m: Message)
    ensures Clean(m) <==> m.unknown == [] && forall f :: f in m.fields ==> CleanBelow(f)
  {
  }

  lemma CleanBelowStep(f: Field)
    ensures CleanBelow(f) <==> forall c :: c in f.Children() ==> Clean(c)
  {
    if CleanBelow(f) {
      forall c, x | c in f.Children() && Occurs(x, c) ensures x.unknown == [] { assert OccursBelow(x, f); }
    } else {
      var x :| OccursBelow(x, f) && x.unknown != [];
      match f {
        case MessageMap(values) =>
          var c :| c in values && Occurs(x, c);
          assert !Clean(c);
        case MessageList(items) =>
          var c :| c in items && Occurs(x, c);
          assert !Clean(c);
        case Singular(value) =>
          assert value in f.Children() && !Clean(value);
        case _ =>
      }
    }
  }

  function Indexes(n: nat): (s: set<nat>)
    ensures forall i: nat :: i in s <==> i < n
  {
    if n == 0 then {} else Indexes(n - 1) + {n - 1}
  }

  /** An index picked by the runtime: Range visits in an unspecified order. */
  method AnyOf(pending: set<nat>) returns (i: nat)
    requires pending != {}
    ensures i in pending
  {
    i :| i in pending;
  }

  /** True for an error. A nil message is not one. */
  method RejectUnknownProtoFields(message: Option<Message>) returns (rejected: bool)
    ensures rejected <==> message.Some? && exists x :: Occurs(x, message.value) && x.unknown != []
  {
    if message.None? {
      return false;
    }
    rejected := RejectMessage(message.value);
  }

  method RejectMessage(m: Message) returns (rejected: bool)
    ensures rejected <==> !Clean(m)
    decreases m
  {
    CleanStep(m);
    if |m.unknown| != 0 {
      return true;
    }
    var err := false;
    var pending := Indexes(|m.fields|);
    while pending != {}
      invariant pending <= Indexes(|m.fields|)
      invariant !err && forall i :: 0 <= i < |m.fields| && i !in pending ==> CleanBelow(m.fields[i])
      decreases |pending|
    {
      var i := AnyOf(pending);
      pending := pending - {i};
      err := VisitField(m.fields[i]);
      if err {
        break;
      }
    }
    return err;
  }

  /** One Range callback: true when it leaves an error behind and stops the visit. */
  method VisitField(field: Field) returns (err: bool)
    ensures err <==> !CleanBelow(field)
    decreases field
  {
    CleanBelowStep(field);
    err := false;
    match field {
      case MessageMap(values) =>
        var pending := Indexes(|values|);
        while pending != {}
          invariant pending <= Indexes(|values|)
          invariant !err && forall i :: 0 <= i < |values| && i !in pending ==> Clean(values[i])
          decreases |pending|
        {
          var i := AnyOf(pending);
          pending := pending - {i};
          err := RejectMessage(values[i]);
          if err {
            break;
          }
        }
      case MessageList(items) =>
        for i := 0 to |items|
          invariant !err && forall j :: 0 <= j < i ==> Clean(items[j])
        {
          err := RejectMessage(items[i]);
          if err {
            break;
          }
        }
      case Singular(value) =>
        err := RejectMessage(value);
      case _ =>
    }
  }

  // ---------- Reaching the messages of a tree ----------

  /** The message at a path of steps, each a field number and a position in it. */
  ghost function At(m: Message, path: seq<(nat, nat)>): Option<Message>
    decreases |path|
  {
    if path == [] then Some(m)
    else if path[0].0 >= |m.fields| then None
    else
      match m.fields[path[0].0]
      case Scalars => None
      case ScalarMap => None
      case MessageMap(values) => if path[0].1 < |values| then At(values[path[0].1], path[1..]) else None
      case MessageList(items) => if path[0].1 < |items| then At(items[path[0].1], path[1..]) else None
      case Singular(value) => At(value, path[1..])
  }

  lemma {:induction false} ReachedOccurs(m: Message, path: seq<(nat, nat)>)
    requires At(m, path).Some?
    ensures Occurs(At(m, path).value, m)
    decreases |path|
  {
    if path != [] {
      var f := m.fields[path[0].0];
      assert f in m.fields;
      match f {
        case MessageMap(values) => ReachedOccurs(values[path[0].1], path[1..]);
        case MessageList(items) => ReachedOccurs(items[path[0].1], path[1..]);
        case Singular(value) => ReachedOccurs(value, path[1..]);
      }
    }
  }

  lemma {:induction false} OccursReached(x: Message, m: Message) returns (path: seq<(nat, nat)>)
    requires Occurs(x, m)
    ensures At(m, path) == Some(x)
    decreases m
  {
    if x == m {
      return [];
    }
    var f :| f in m.fields && OccursBelow(x, f);
    var i :| 0 <= i < |m.fields| && m.fields[i] == f;
    var rest;
    match f {
      case MessageMap(values) =>
        var j :| 0 <= j < |values| && Occurs(x, values[j]);
        rest := OccursReached(x, values[j]);
        path := [(i, j)] + rest;
      case MessageList(items) =>
        var j :| 0 <= j < |items| && Occurs(x, items[j]);
        rest := OccursReached(x, items[j]);
        path := [(i, j)] + rest;
      case Singular(value) =>
        rest := OccursReached(x, value);
        path := [(i, 0)] + rest;
    }
    assert path[1..] == rest;
  }

  /** Clean trees are those in which no path leads to a message with unknown bytes. */
  lemma CleanOnPaths(m: Message)
    ensures Clean(m) <==> forall path :: At(m, path).Some? ==> At(m, path).value.unknown == []
  {
    if Clean(m) {
      forall path | At(m, path).Some? ensures At(m, path).value.unknown == [] { ReachedOccurs(m, path); }
    } else {
      var x :| Occurs(x, m) && x.unknown != [];
      var path := OccursReached(x, m);
    }
  }
}
