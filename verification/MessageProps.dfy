/** What a property descriptor reads from a message (runtime/msg.c: MsgGetProp, getJSONRootAndMutexByVarChar), and when
    two descriptors name the same thing (grammar/rainerscript.c: same_var_property). */
module MessageProps {
  import opened Values
  import opened Script

  /** A message: its priority, its other native properties by id, and the variable trees $!, $. and $/ by name. */
  datatype Message = Message(
    sev: nat,
    fac: nat,
    native: nat -> string,
    cee: string -> Value,
    local: string -> Value,
    global: string -> Value)

  ghost predicate ValidMessage(msg: Message) {
    && msg.sev <= 7 && msg.fac <= 24
    && forall n :: !msg.cee(n).Num? && !msg.local(n).Num? && !msg.global(n).Num?
  }

  function Read(msg: Message, p: Prop): Value {
    match p.id
    case 12 => Str(FacilityText(msg.fac))
    case 13 => Str(FacilityName(msg.fac))
    case 14 => Str(NumText(msg.sev))
    case 15 => Str(SeverityName(msg.sev))
    case 200 => msg.cee(p.name)
    case 202 => msg.local(p.name)
    case 203 => msg.global(p.name)
    case id => Str(msg.native(id))
  }

  ghost predicate SameReadings(p: Prop, q: Prop) {
    forall msg :: ValidMessage(msg) ==> Read(msg, p) == Read(msg, q)
  }

  /** A message in which everything that can differ does. */
  function Telltale(): Message {
    Message(0, 1, id => "n" + NumText(id), name => Str("!" + name), name => Str("." + name), name => Str("/" + name))
  }

  lemma NativeDiffer(a: nat, b: nat)
    ensures "n" + NumText(a) == "n" + NumText(b) ==> a == b
  {
    if "n" + NumText(a) == "n" + NumText(b) {
      assert ("n" + NumText(a))[1..] == NumText(a) && ("n" + NumText(b))[1..] == NumText(b);
      NumberRoundTrip(a);
      NumberRoundTrip(b);
    }
  }

  lemma NamesDiffer(c: char, a: string, b: string)
    ensures [c] + a == [c] + b ==> a == b
  {
    assert ([c] + a)[1..] == a && ([c] + b)[1..] == b;
  }

  /** The first character of what it reads shows the kind of a property. */
  function Mark(id: nat): char {
    match id
    case 12 => '1'
    case 13 => 'u'
    case 14 => '0'
    case 15 => 'e'
    case 200 => '!'
    case 202 => '.'
    case 203 => '/'
    case _ => 'n'
  }

  lemma TelltaleMark(p: Prop)
    ensures var v := Read(Telltale(), p); v.Str? && v.s != "" && v.s[0] == Mark(p.id)
  {
    assert NumText(1) == "1" && NumText(0) == "0";
  }

  lemma TelltaleTells(p: Prop, q: Prop)
    requires Read(Telltale(), p) == Read(Telltale(), q)
    ensures SameProp(p, q)
  {
    NativeDiffer(p.id, q.id);
    NamesDiffer('!', p.name, q.name);
    NamesDiffer('.', p.name, q.name);
    NamesDiffer('/', p.name, q.name);
    TelltaleMark(p);
    TelltaleMark(q);
  }

  /** Two descriptors are taken for the same property exactly when they read the same from every message. */
  lemma SamePropMeans(p: Prop, q: Prop)
    ensures SameProp(p, q) <==> SameReadings(p, q)
  {
    if SameReadings(p, q) {
      assert ValidMessage(Telltale());
      TelltaleTells(p, q);
    }
  }

  /** Reading a message gives expressions what they are assumed to see. */
  lemma MessageIsEnv(msg: Message, lib: Lib, call: (string, seq<Value>) -> Value, present: string -> bool)
    requires ValidMessage(msg) && (forall f, vs :: call(f, vs).Num? ==> lib.numericFn(f))
    ensures ValidEnv(lib, Env(msg.sev, msg.fac, p => Read(msg, p), call, present))
  {
    var env := Env(msg.sev, msg.fac, p => Read(msg, p), call, present);
    forall p, q | SameProp(p, q) ensures env.read(p) == env.read(q) {
      SamePropMeans(p, q);
    }
  }
}
