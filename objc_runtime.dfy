/**
 * The part of the Objective-C runtime that `NSObject`'s methods call
 * (`env.objc` and `env.mem`): the class table and its superclass walk,
 * selector interning, the reference-count table and the `isa` read. The
 * runtime's own code is not part of this model, so each of these is given
 * here by the contract it is used under.
 */
module ObjCRuntime {
  import opened Guest

  /** An object handle (`id`): the guest address of an object; 0 is nil. */
  type Id = Addr

  /** A class handle: the guest address of a class object. */
  type Class = Addr

  const NIL: Id := 0

  /** A selector: the null selector, or an interned name. */
  datatype SEL = NullSel | Sel(name: string)

  /**
   * One registered class. `order` is its registration index: a superclass
   * is registered before its subclasses, and a link to a class registered
   * later is not followed, which keeps every hierarchy walk finite.
   * `accessIvarsDirectly` is the class's own override of
   * `+accessInstanceVariablesDirectly`, if it declares one; a class without
   * one inherits the answer.
   * `ivars` maps an ivar's name to the address of the word holding its
   * offset within an instance.
   */
  datatype ClassInfo = ClassInfo(
    superclass: Option<Class>,
    order: nat,
    methods: set<SEL>,
    ivars: map<SEL, Addr>,
    accessIvarsDirectly: Option<bool>)

  type ClassTable = map<Class, ClassInfo>

  /** The superclass of `c` that the hierarchy walk steps to, if any. */
  function Parent(t: ClassTable, c: Class): (p: Option<Class>)
    ensures p.Some? ==> c in t && p.value in t && t[p.value].order < t[c].order
  {
    if c in t && t[c].superclass.Some? && t[c].superclass.value in t
       && t[t[c].superclass.value].order < t[c].order
    then t[c].superclass
    else None
  }

  /**
   * A table as class registration builds it: every superclass link points
   * to a class registered earlier.
   */
  ghost predicate WellFormed(t: ClassTable) {
    forall c :: c in t && t[c].superclass.Some? ==>
      t[c].superclass.value in t && t[t[c].superclass.value].order < t[c].order
  }

  /** In a well-formed table the walk follows every superclass link. */
  lemma ParentOfWellFormed(t: ClassTable, c: Class)
    requires WellFormed(t) && c in t
    ensures Parent(t, c) == t[c].superclass
  {
  }

  /** The measure every hierarchy walk decreases. */
  function Rank(t: ClassTable, c: Class): nat {
    if c in t then t[c].order + 1 else 0
  }

  /** `class_is_subclass_of(a, b)`: `b` is `a` or one of its superclasses. */
  predicate IsSubclassOf(t: ClassTable, a: Class, b: Class)
    decreases Rank(t, a)
  {
    a == b || (Parent(t, a).Some? && IsSubclassOf(t, Parent(t, a).value, b))
  }

  /** `class_has_method(c, sel)`: `c` or one of its superclasses implements `sel`. */
  predicate HasMethod(t: ClassTable, c: Class, sel: SEL)
    decreases Rank(t, c)
  {
    c in t && (sel in t[c].methods || (Parent(t, c).Some? && HasMethod(t, Parent(t, c).value, sel)))
  }

  /**
   * `class_has_ivar(c, name)`: the address of the offset word of the ivar
   * `name` in the nearest class, walking from `c` up, that declares one.
   */
  function HasIvar(t: ClassTable, c: Class, name: SEL): (r: Option<Addr>)
    ensures c in t && name in t[c].ivars ==> r == Some(t[c].ivars[name])
    decreases Rank(t, c)
  {
    if c !in t then None
    else if name in t[c].ivars then Some(t[c].ivars[name])
    else match Parent(t, c)
      case None => None
      case Some(p) => HasIvar(t, p, name)
  }

  /** `lookup_selector(name)`: the selector when `name` is interned, else None. */
  function LookupSelector(selectors: set<string>, name: string): (r: Option<SEL>)
    ensures r.Some? <==> name in selectors
    ensures r.Some? ==> r.value == Sel(name)
  {
    if name in selectors then Some(Sel(name)) else None
  }

  /** The subclass relation is reflexive. */
  lemma SubclassReflexive(t: ClassTable, c: Class)
    ensures IsSubclassOf(t, c, c)
  {
  }

  /** The subclass relation is transitive. */
  lemma {:induction false} SubclassTransitive(t: ClassTable, a: Class, b: Class, c: Class)
    requires IsSubclassOf(t, a, b) && IsSubclassOf(t, b, c)
    ensures IsSubclassOf(t, a, c)
    decreases Rank(t, a)
  {
    if a != b {
      SubclassTransitive(t, Parent(t, a).value, b, c);
    }
  }

  /** A proper superclass was registered before its subclass. */
  lemma {:induction false} SubclassOrder(t: ClassTable, a: Class, b: Class)
    requires IsSubclassOf(t, a, b) && a != b
    ensures a in t && b in t && t[b].order < t[a].order
    decreases Rank(t, a)
  {
    var p := Parent(t, a).value;
    if p != b {
      SubclassOrder(t, p, b);
    }
  }

  /** The subclass relation is antisymmetric: a superclass is never a subclass of its own subclass. */
  lemma SubclassAntisymmetric(t: ClassTable, a: Class, b: Class)
    requires IsSubclassOf(t, a, b) && IsSubclassOf(t, b, a)
    ensures a == b
  {
    if a != b {
      SubclassOrder(t, a, b);
      SubclassOrder(t, b, a);
    }
  }

  /** A method any superclass implements is found from the subclass. */
  lemma {:induction false} MethodInherited(t: ClassTable, a: Class, b: Class, sel: SEL)
    requires IsSubclassOf(t, a, b) && b in t && sel in t[b].methods
    ensures HasMethod(t, a, sel)
    decreases Rank(t, a)
  {
    if a != b {
      MethodInherited(t, Parent(t, a).value, b, sel);
    }
  }

  /** A method found from `a` is implemented by `a` or one of its superclasses. */
  lemma {:induction false} MethodFoundInHierarchy(t: ClassTable, a: Class, sel: SEL)
    requires HasMethod(t, a, sel)
    ensures exists b :: IsSubclassOf(t, a, b) && b in t && sel in t[b].methods
    decreases Rank(t, a)
  {
    if sel in t[a].methods {
      assert IsSubclassOf(t, a, a);
    } else {
      var p := Parent(t, a).value;
      MethodFoundInHierarchy(t, p, sel);
      var b :| IsSubclassOf(t, p, b) && b in t && sel in t[b].methods;
      assert IsSubclassOf(t, a, b);
    }
  }

  /**
   * An ivar found from `a` is declared by `a` or one of its superclasses,
   * and the offset word found is that declaration's.
   */
  lemma {:induction false} IvarFoundInHierarchy(t: ClassTable, a: Class, name: SEL)
    requires HasIvar(t, a, name).Some?
    ensures exists b :: IsSubclassOf(t, a, b) && b in t && name in t[b].ivars
                        && HasIvar(t, a, name) == Some(t[b].ivars[name])
    decreases Rank(t, a)
  {
    if name in t[a].ivars {
      assert IsSubclassOf(t, a, a);
    } else {
      var p := Parent(t, a).value;
      IvarFoundInHierarchy(t, p, name);
      var b :| IsSubclassOf(t, p, b) && b in t && name in t[b].ivars
               && HasIvar(t, p, name) == Some(t[b].ivars[name]);
      assert IsSubclassOf(t, a, b);
    }
  }

  /** An ivar any superclass declares is found from the subclass. */
  lemma {:induction false} IvarInherited(t: ClassTable, a: Class, b: Class, name: SEL)
    requires IsSubclassOf(t, a, b) && b in t && name in t[b].ivars
    ensures HasIvar(t, a, name).Some?
    decreases Rank(t, a)
  {
    if a != b && name !in t[a].ivars {
      IvarInherited(t, Parent(t, a).value, b, name);
    }
  }

  /**
   * The nearest declaration wins: when `b` declares `name` and no class
   * from `a` up to below `b` does, the offset word found is `b`'s.
   */
  lemma {:induction false} IvarNearest(t: ClassTable, a: Class, b: Class, name: SEL)
    requires IsSubclassOf(t, a, b) && b in t && name in t[b].ivars
    requires forall c :: IsSubclassOf(t, a, c) && IsSubclassOf(t, c, b) && c != b && c in t ==> name !in t[c].ivars
    ensures HasIvar(t, a, name) == Some(t[b].ivars[name])
    decreases Rank(t, a)
  {
    if a != b {
      SubclassReflexive(t, a);
      var p := Parent(t, a).value;
      forall c | IsSubclassOf(t, p, c) && IsSubclassOf(t, c, b) && c != b && c in t
        ensures name !in t[c].ivars
      {
        assert IsSubclassOf(t, a, c);
      }
      IvarNearest(t, p, b, name);
    }
  }

  // ---------------------------------------------------------------------
  // Reference counts
  // ---------------------------------------------------------------------

  /** A reference count: never below one while the object is tracked. */
  type Count = n: int | n >= 1 witness 1

  /** The objects the runtime tracks and the count of each. */
  type RefCounts = map<Id, Count>

  /** A fatal condition: the emulator panics with this diagnosis. */
  datatype Panic =
    | NonAsciiKey(key: string)
    | EmptyKey
    | SelectorNotInterned(name: string)
    | UnmappedAddress(addr: Addr)
    | UnknownClass(cls: Class)
    | UntrackedObject(obj: Id)
    | UndefinedKey(receiver: Id, cls: Class, key: string)
    | NullSelector
    | WaitUntilDoneUnsupported
    | MalformedPayload(entry: string)

  datatype Result<T> = Ok(value: T) | Fatal(panic: Panic)

  /** `increment_refcount(obj)`: one more owner; an untracked object is fatal. */
  function IncrementRefcount(rc: RefCounts, obj: Id): (r: Result<RefCounts>)
    ensures r.Ok? <==> obj in rc
    ensures r.Ok? ==> r.value.Keys == rc.Keys && r.value[obj] == rc[obj] + 1
    ensures r.Ok? ==> forall o :: o in rc && o != obj ==> r.value[o] == rc[o]
    ensures r.Fatal? ==> r.panic == UntrackedObject(obj)
  {
    if obj in rc then Ok(rc[obj := rc[obj] + 1]) else Fatal(UntrackedObject(obj))
  }

  /**
   * `decrement_refcount(obj)`: one owner fewer. The flag says whether no
   * owner is left (the count was one); then the entry stays for `dealloc`
   * to remove. An untracked object is fatal.
   */
  function DecrementRefcount(rc: RefCounts, obj: Id): (r: Result<(RefCounts, bool)>)
    ensures r.Ok? <==> obj in rc
    ensures r.Ok? ==> r.value.0.Keys == rc.Keys
    ensures r.Ok? ==> (r.value.1 <==> rc[obj] == 1)
    ensures r.Ok? && r.value.1 ==> r.value.0 == rc
    ensures r.Ok? && !r.value.1 ==> r.value.0[obj] == rc[obj] - 1
    ensures r.Ok? ==> forall o :: o in rc && o != obj ==> r.value.0[o] == rc[o]
    ensures r.Fatal? ==> r.panic == UntrackedObject(obj)
  {
    if obj !in rc then Fatal(UntrackedObject(obj))
    else if rc[obj] == 1 then Ok((rc, true))
    else Ok((rc[obj := rc[obj] - 1], false))
  }

  /** `dealloc_object(obj)`: the object is no longer tracked; an untracked object is fatal. */
  function DeallocObject(rc: RefCounts, obj: Id): (r: Result<RefCounts>)
    ensures r.Ok? <==> obj in rc
    ensures r.Ok? ==> r.value == rc - {obj}
  {
    if obj in rc then Ok(rc - {obj}) else Fatal(UntrackedObject(obj))
  }

  /** `ObjC::read_isa(obj)`: the class word at offset 0 of the object. */
  function ReadIsa(mem: Memory, obj: Id): (r: Result<Class>)
    ensures r.Ok? <==> obj in mem
    ensures r.Ok? ==> r.value == mem[obj]
  {
    match Read(mem, obj)
    case Some(c) => Ok(c)
    case None => Fatal(UnmappedAddress(obj))
  }

  // ---------------------------------------------------------------------
  // Messages, timers and the environment
  // ---------------------------------------------------------------------

  /** Who a message goes to: an object, or a class named in the source (`msg_class!`). */
  datatype Receiver = Instance(id: Id) | ClassNamed(name: string)

  /** A message sent by `msg_send` / `msg!` whose implementation lies outside this model. */
  datatype Message = Message(receiver: Receiver, sel: SEL, args: seq<Word>)

  /**
   * An entry of a timer's `userInfo` dictionary: an object, which for a
   * string object also carries its text.
   */
  datatype PayloadValue = StringValue(obj: Id, s: string) | ObjectValue(obj: Id)

  type Payload = map<string, PayloadValue>

  /** An `NSTimer` as `timerWithTimeInterval:target:selector:userInfo:repeats:` makes it. */
  datatype Timer = Timer(interval: real, target: Id, selector: SEL, userInfo: Payload, repeats: bool)

  /**
   * The emulator state `NSObject`'s methods see. The class table and the
   * interned selectors are fixed once classes are registered; the rest
   * changes. `trace` lists, in order, the messages sent to code outside the
   * model; `mainRunLoopTimers` the timers added to the main run loop in its
   * default mode.
   */
  class Env {
    const classes: ClassTable
    const selectors: set<string>
    var refcounts: RefCounts
    var mem: Memory
    var trace: seq<Message>
    var mainRunLoopTimers: seq<Timer>

    constructor (classes: ClassTable, selectors: set<string>, mem: Memory)
      ensures this.classes == classes && this.selectors == selectors && this.mem == mem
      ensures refcounts == map[] && trace == [] && mainRunLoopTimers == []
    {
      this.classes := classes;
      this.selectors := selectors;
      this.mem := mem;
      refcounts := map[];
      trace := [];
      mainRunLoopTimers := [];
    }
  }
}
