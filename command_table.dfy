/** The command storage of src/dmcc/readline/reader.cpp: the global
    `cmd_pairs`, a std::map from command names to shared pointers to a pair
    of the command's signal and its completion function. The map is kept as
    a list of entries in key order, which is the order std::map iterates
    in. */
module CommandTable {
  import opened Wrappers

  /** A slot connected to a command's signal: it gets the command name and
      the argument list and returns whether the main loop should end. */
  type Handler = (string, seq<string>) -> bool

  /** A completion callback: the text to complete and readline's state
      counter give the next candidate, or null (None). */
  type Completion = (string, int) -> Option<string>

  /** boost::signal<bool (const std::string&, const arglist_t&)>, shared
      between the table and whoever registered the command. */
  class Signal {
    /** The connected slots, in connection order. */
    var slots: seq<Handler>

    constructor ()
      ensures slots == []
    {
      slots := [];
    }

    method Connect(h: Handler)
      modifies this
      ensures slots == old(slots) + [h]
    {
      slots := slots + [h];
    }
  }

  /** The value of emitting a signal whose slots are `slots` under the
      default combiner: every slot runs, in connection order, and the value
      is the last one's result; None when no slot is connected. */
  function Fire(slots: seq<Handler>, cmd: string, args: seq<string>): Option<bool>
  {
    if slots == [] then None else Some(slots[|slots| - 1](cmd, args))
  }

  /** cmd_pair_t: the command's signal and its completion function (None
      for an empty boost::function); both are fixed when the pair is made. */
  class CmdPair {
    const sig: Signal
    const compl: Option<Completion>

    constructor (sig: Signal, compl: Option<Completion>)
      ensures this.sig == sig && this.compl == compl
    {
      this.sig := sig;
      this.compl := compl;
    }
  }

  /** One element of the map: the name and the shared pointer, which is
      null when `operator[]` created the element. */
  datatype Entry = Entry(name: string, pair: CmdPair?)

  // ---------------------------------------------------------------------
  // Key order

  /** std::string's operator<: by character code, a proper prefix first. */
  predicate Less(a: string, b: string)
  {
    b != [] && (a == [] || a[0] < b[0] || (a[0] == b[0] && Less(a[1..], b[1..])))
  }

  lemma {:induction false} LessIrreflexive(a: string)
    ensures !Less(a, a)
  {
    if a != [] {
      LessIrreflexive(a[1..]);
    }
  }

  lemma {:induction false} LessTransitive(a: string, b: string, c: string)
    requires Less(a, b) && Less(b, c)
    ensures Less(a, c)
  {
    if a != [] && a[0] == b[0] && b[0] == c[0] {
      LessTransitive(a[1..], b[1..], c[1..]);
    }
  }

  /** Any two names are equal or ordered one way. */
  lemma {:induction false} LessTotal(a: string, b: string)
    ensures a == b || Less(a, b) || Less(b, a)
  {
    if a != [] && b != [] && a[0] == b[0] {
      LessTotal(a[1..], b[1..]);
      if a[1..] == b[1..] {
        assert a == [a[0]] + a[1..] && b == [b[0]] + b[1..];
      }
    }
  }

  /** Every name of `es` is above `x`. */
  predicate Above(x: string, es: seq<Entry>)
  {
    forall k :: 0 <= k < |es| ==> Less(x, es[k].name)
  }

  /** Strictly increasing names: the order of a std::map, no name twice. */
  predicate Sorted(es: seq<Entry>)
  {
    forall j, k :: 0 <= j < k < |es| ==> Less(es[j].name, es[k].name)
  }

  // ---------------------------------------------------------------------
  // The map operations

  /** `cmd_pairs[name] = pair`: replaces the pointer stored under `name`, or
      inserts the element at its place in key order. */
  function Assign(es: seq<Entry>, name: string, pair: CmdPair?): seq<Entry>
  {
    if es == [] then [Entry(name, pair)]
    else if es[0].name == name then [Entry(name, pair)] + es[1..]
    else if Less(name, es[0].name) then [Entry(name, pair)] + es
    else [es[0]] + Assign(es[1..], name, pair)
  }

  /** `cmd_pairs.find(name)`: the stored pointer, None for the end iterator. */
  function Find(es: seq<Entry>, name: string): Option<CmdPair?>
  {
    if es == [] then None
    else if es[0].name == name then Some(es[0].pair)
    else Find(es[1..], name)
  }

  /** What `cmd_pairs[name]` evaluates to: the stored pointer, or the null
      pointer it default-constructs for a missing name. */
  function Pointer(es: seq<Entry>, name: string): CmdPair?
  {
    if Find(es, name).Some? then Find(es, name).value else null
  }

  /** The map after `cmd_pairs[name]` was evaluated: unchanged when the name
      is there, otherwise with a null element added under it. */
  function Touch(es: seq<Entry>, name: string): seq<Entry>
  {
    if Find(es, name).Some? then es else Assign(es, name, null)
  }

  /** After an assignment the name holds the new pointer and every other
      name keeps what it had: registering under an existing name replaces
      the previous entry. */
  lemma {:induction false} FindAssign(es: seq<Entry>, name: string, pair: CmdPair?, other: string)
    ensures Find(Assign(es, name, pair), name) == Some(pair)
    ensures other != name ==> Find(Assign(es, name, pair), other) == Find(es, other)
  {
    if es != [] && es[0].name != name && !Less(name, es[0].name) {
      FindAssign(es[1..], name, pair, other);
    }
  }

  /** Evaluating `cmd_pairs[name]` leaves an element under `name` holding
      the pointer it returned, and changes nothing under other names. */
  lemma TouchFacts(es: seq<Entry>, name: string, other: string)
    ensures Find(Touch(es, name), name) == Some(Pointer(es, name))
    ensures other != name ==> Find(Touch(es, name), other) == Find(es, other)
    ensures Find(es, name).None? ==> Pointer(es, name) == null
  {
    FindAssign(es, name, null, other);
  }

  lemma {:induction false} AssignAbove(x: string, es: seq<Entry>, name: string, pair: CmdPair?)
    requires Above(x, es) && Less(x, name)
    ensures Above(x, Assign(es, name, pair))
  {
    if es != [] && es[0].name != name && !Less(name, es[0].name) {
      AssignAbove(x, es[1..], name, pair);
      var r := Assign(es, name, pair);
      assert r == [es[0]] + Assign(es[1..], name, pair);
      forall k | 1 <= k < |r| ensures Less(x, r[k].name) {
        assert r[k] == Assign(es[1..], name, pair)[k - 1];
      }
    }
  }

  /** Assignment keeps the names in strict key order. */
  lemma {:induction false} AssignSorted(es: seq<Entry>, name: string, pair: CmdPair?)
    requires Sorted(es)
    ensures Sorted(Assign(es, name, pair))
  {
    if es != [] {
      var r := Assign(es, name, pair);
      if es[0].name == name {
        assert forall k :: 1 <= k < |r| ==> r[k] == es[k];
      } else if Less(name, es[0].name) {
        forall j, k | 0 <= j < k < |r| ensures Less(r[j].name, r[k].name) {
          if j == 0 && k > 1 {
            LessTransitive(name, es[0].name, es[k - 1].name);
          }
        }
      } else {
        LessTotal(name, es[0].name);
        AssignSorted(es[1..], name, pair);
        assert Above(es[0].name, es[1..]);
        AssignAbove(es[0].name, es[1..], name, pair);
        var tail := Assign(es[1..], name, pair);
        assert r == [es[0]] + tail;
        forall j, k | 0 <= j < k < |r| ensures Less(r[j].name, r[k].name) {
          assert r[k] == tail[k - 1];
          if j > 0 {
            assert r[j] == tail[j - 1];
          }
        }
      }
    }
  }

  // ---------------------------------------------------------------------
  // The slots behind the table

  /** A record of the slots connected to signals. */
  type Connections = map<Signal, seq<Handler>>

  function SlotsOf(connected: Connections, sig: Signal): seq<Handler>
  {
    if sig in connected then connected[sig] else []
  }

  /** `connected` records the slots of every signal the table holds. */
  ghost predicate Agrees(connected: Connections, es: seq<Entry>)
    reads set k | 0 <= k < |es| && es[k].pair != null :: es[k].pair.sig
  {
    forall k :: 0 <= k < |es| && es[k].pair != null ==>
      SlotsOf(connected, es[k].pair.sig) == es[k].pair.sig.slots
  }

  lemma {:induction false} AgreesPointer(connected: Connections, es: seq<Entry>, name: string)
    requires Agrees(connected, es)
    ensures Pointer(es, name) != null ==> SlotsOf(connected, Pointer(es, name).sig) == Pointer(es, name).sig.slots
  {
    if es != [] && es[0].name != name {
      assert forall k :: 0 <= k < |es| - 1 ==> es[1..][k] == es[k + 1];
      AgreesPointer(connected, es[1..], name);
    }
  }

  /** A null element keeps the record in agreement. */
  lemma {:induction false} AgreesAssignNull(connected: Connections, es: seq<Entry>, name: string)
    requires Agrees(connected, es)
    ensures Agrees(connected, Assign(es, name, null))
  {
    var r := Assign(es, name, null);
    if es != [] && es[0].name != name && !Less(name, es[0].name) {
      assert forall k :: 0 <= k < |es| - 1 ==> es[1..][k] == es[k + 1];
      AgreesAssignNull(connected, es[1..], name);
      assert forall k :: 1 <= k < |r| ==> r[k] == Assign(es[1..], name, null)[k - 1];
    } else if es != [] && es[0].name == name {
      assert forall k :: 1 <= k < |r| ==> r[k] == es[k];
    } else if es != [] {
      assert forall k :: 1 <= k < |r| ==> r[k] == es[k - 1];
    }
  }

  // ---------------------------------------------------------------------
  // The global table

  /** `cmd_pairs`. */
  class Commands {
    var entries: seq<Entry>

    ghost predicate Valid()
      reads this
    {
      Sorted(entries)
    }

    constructor ()
      ensures Valid() && entries == []
    {
      entries := [];
    }

    /** `cmd_pairs[name] = pair`. */
    method Put(name: string, pair: CmdPair?)
      requires Valid()
      modifies this
      ensures Valid() && entries == Assign(old(entries), name, pair)
    {
      AssignSorted(entries, name, pair);
      entries := Assign(entries, name, pair);
    }

    /** Reading `cmd_pairs[name]`, which inserts a null element for a
        missing name. */
    method Index(name: string) returns (pair: CmdPair?)
      requires Valid()
      modifies this
      ensures Valid() && entries == Touch(old(entries), name)
      ensures pair == Pointer(old(entries), name)
    {
      var found := Find(entries, name);
      if found.Some? {
        pair := found.value;
      } else {
        AssignSorted(entries, name, null);
        entries := Assign(entries, name, null);
        pair := null;
      }
    }
  }
}
