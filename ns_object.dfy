/**
 * `NSObject`, the root class: reference counting, identity, class
 * membership, selector queries, key-value coding's `setValue:forKey:`
 * search, and the main-thread perform bridge.
 *
 * A method here takes the emulator state `env` and the receiver, as the
 * source's `(env, this, _cmd)` methods do. A message the source sends to
 * code outside this model (a setter, `dealloc`, `setValue:forUndefinedKey:`,
 * `addObject:`, a performed selector) is appended to `env.trace` rather
 * than run. A panic is a `Fatal` result that leaves the state as it was.
 */
module NSObject {
  import opened Guest
  import opened ObjCRuntime

  const DEALLOC: SEL := Sel("dealloc")
  const ADD_OBJECT: SEL := Sel("addObject:")
  const AUTORELEASE_POOL: string := "NSAutoreleasePool"
  const ACCESS_IVARS_DIRECTLY: string := "accessInstanceVariablesDirectly"
  const SET_VALUE_FOR_UNDEFINED_KEY: string := "setValue:forUndefinedKey:"
  const TIMER_FIRE_METHOD: string := "timerFireMethod:"
  const SEL_KEY: string := "SEL"
  const ARG_KEY: string := "arg"

  // ---------------------------------------------------------------------
  // Reference counting and class objects
  // ---------------------------------------------------------------------

  /**
   * `+allocWithZone:` through `alloc_object`: the new object at `addr` (the
   * address the allocator hands out, mapped and not yet tracked) gets its
   * class in the `isa` word and a count of one, as if one owner held it.
   */
  method AllocWithZone(env: Env, cls: Class, addr: Id) returns (obj: Id)
    requires addr != NIL && addr in env.mem && addr !in env.refcounts
    modifies env`refcounts, env`mem
    ensures obj == addr
    ensures env.refcounts == old(env.refcounts)[addr := 1]
    ensures env.mem == old(env.mem)[addr := cls]
    ensures ReadIsa(env.mem, obj) == Ok(cls)
  {
    env.refcounts := env.refcounts[addr := 1];
    env.mem := env.mem[addr := cls];
    obj := addr;
  }

  /** `+retain`: classes are not counted; the class itself comes back. */
  method ClassRetain(env: Env, cls: Class) returns (r: Class)
    ensures r == cls
  {
    r := cls;
  }

  /** `+release`: classes are not counted; nothing changes. */
  method ClassRelease(env: Env, cls: Class)
    ensures unchanged(env)
  {
  }

  /** `+autorelease`: classes are not counted; nothing changes. */
  method ClassAutorelease(env: Env, cls: Class)
    ensures unchanged(env)
  {
  }

  /** `-retain`: one more owner of `obj`, and `obj` comes back. */
  method Retain(env: Env, obj: Id) returns (r: Result<Id>)
    modifies env`refcounts
    ensures r.Ok? ==> r.value == obj
    ensures match IncrementRefcount(old(env.refcounts), obj)
            case Ok(rc) => r == Ok(obj) && env.refcounts == rc
            case Fatal(p) => r == Fatal(p) && env.refcounts == old(env.refcounts)
  {
    var rc := IncrementRefcount(env.refcounts, obj);
    if rc.Fatal? {
      return Fatal(rc.panic);
    }
    env.refcounts := rc.value;
    r := Ok(obj);
  }

  /**
   * `-release`: one owner fewer; `dealloc` is sent to `obj` exactly when
   * `decrement_refcount` reports that no owner is left.
   */
  method Release(env: Env, obj: Id) returns (r: Result<()>)
    modifies env`refcounts, env`trace
    ensures match DecrementRefcount(old(env.refcounts), obj)
            case Ok((rc, noOwners)) =>
              r == Ok(()) && env.refcounts == rc &&
              env.trace == old(env.trace) + (if noOwners then [Message(Instance(obj), DEALLOC, [])] else [])
            case Fatal(p) =>
              r == Fatal(p) && env.refcounts == old(env.refcounts) && env.trace == old(env.trace)
  {
    var dec := DecrementRefcount(env.refcounts, obj);
    if dec.Fatal? {
      return Fatal(dec.panic);
    }
    var (rc, noOwners) := dec.value;
    env.refcounts := rc;
    if noOwners {
      env.trace := env.trace + [Message(Instance(obj), DEALLOC, [])];
    }
    r := Ok(());
  }

  /** `-autorelease`: `obj` goes to the current autorelease pool and comes back unchanged. */
  method Autorelease(env: Env, obj: Id) returns (r: Id)
    modifies env`trace
    ensures r == obj
    ensures env.trace == old(env.trace) + [Message(ClassNamed(AUTORELEASE_POOL), ADD_OBJECT, [obj])]
  {
    env.trace := env.trace + [Message(ClassNamed(AUTORELEASE_POOL), ADD_OBJECT, [obj])];
    r := obj;
  }

  /** `-dealloc` through `dealloc_object`: `obj` is no longer tracked. */
  method Dealloc(env: Env, obj: Id) returns (r: Result<()>)
    modifies env`refcounts
    ensures r.Ok? <==> obj in old(env.refcounts)
    ensures r.Ok? ==> env.refcounts == old(env.refcounts) - {obj}
    ensures r.Fatal? ==> env.refcounts == old(env.refcounts)
  {
    var rc := DeallocObject(env.refcounts, obj);
    if rc.Fatal? {
      return Fatal(rc.panic);
    }
    env.refcounts := rc.value;
    r := Ok(());
  }

  /** The table after `n` retains of `obj` in a row. */
  function RetainRun(rc: RefCounts, obj: Id, n: nat): (r: Result<RefCounts>)
    ensures r.Ok? <==> n == 0 || obj in rc
    ensures r.Ok? ==> r.value.Keys == rc.Keys
    ensures r.Fatal? ==> r == Fatal(UntrackedObject(obj))
    decreases n
  {
    if n == 0 then Ok(rc)
    else match IncrementRefcount(rc, obj)
      case Fatal(p) => Fatal(p)
      case Ok(rc1) => RetainRun(rc1, obj, n - 1)
  }

  /**
   * For each of `k` releases of `obj` in a row, whether it sends `dealloc`;
   * when one does, NSObject's `-dealloc` removes `obj` from the table. The
   * run stops at the first release that is fatal.
   */
  function ReleaseRun(rc: RefCounts, obj: Id, k: nat): (r: seq<bool>)
    ensures |r| <= k
    ensures obj !in rc ==> r == []
    ensures forall i :: 0 <= i < |r| - 1 ==> !r[i]
    decreases k
  {
    if k == 0 then []
    else match DecrementRefcount(rc, obj)
      case Fatal(_) => []
      case Ok((rc1, noOwners)) =>
        [noOwners] + ReleaseRun(if noOwners then DeallocObject(rc1, obj).value else rc1, obj, k - 1)
  }

  /** `n` retains add `n` to the count and change nothing else. */
  lemma {:induction false} RetainRunAdds(rc: RefCounts, obj: Id, n: nat)
    requires obj in rc
    ensures RetainRun(rc, obj, n) == Ok(rc[obj := rc[obj] + n])
    decreases n
  {
    if n > 0 {
      var rc1 := rc[obj := rc[obj] + 1];
      assert RetainRun(rc, obj, n) == RetainRun(rc1, obj, n - 1);
      RetainRunAdds(rc1, obj, n - 1);
      assert rc1[obj := rc1[obj] + (n - 1)] == rc[obj := rc[obj] + n];
    } else {
      assert rc[obj := rc[obj]] == rc;
    }
  }

  /**
   * From a count of `c`, the first `c - 1` releases send no `dealloc`, the
   * `c`-th sends it, and any release after that is fatal.
   */
  lemma {:induction false} ReleaseRunFrom(rc: RefCounts, obj: Id, extra: nat)
    requires obj in rc
    ensures ReleaseRun(rc, obj, rc[obj] + extra) == seq(rc[obj] - 1, i => false) + [true]
    decreases rc[obj]
  {
    var c := rc[obj];
    if c == 1 {
      assert ReleaseRun(rc - {obj}, obj, extra) == [];
    } else {
      var rc1 := rc[obj := c - 1];
      ReleaseRunFrom(rc1, obj, extra);
      assert [false] + (seq(c - 2, i => false) + [true]) == seq(c - 1, i => false) + [true];
    }
  }

  /**
   * A newly allocated object retained `n` times is deallocated exactly
   * once, by its `(n + 1)`-th release and not before, however many more
   * releases are attempted.
   */
  lemma AllocRetainReleaseBalance(rc: RefCounts, obj: Id, n: nat, extra: nat)
    requires obj in rc && rc[obj] == 1
    ensures RetainRun(rc, obj, n).Ok?
    ensures ReleaseRun(RetainRun(rc, obj, n).value, obj, n + 1 + extra) == seq(n, i => false) + [true]
  {
    RetainRunAdds(rc, obj, n);
    ReleaseRunFrom(rc[obj := 1 + n], obj, extra);
  }

  // ---------------------------------------------------------------------
  // Identity, class membership, selector queries
  // ---------------------------------------------------------------------

  /** `-hash`: the object's address bits. */
  function Hash(obj: Id): Word {
    obj
  }

  /** `-isEqual:`: address identity, which holds exactly when the hashes agree. */
  function IsEqual(obj: Id, other: Id): (r: bool)
    ensures r <==> Hash(obj) == Hash(other)
  {
    obj == other
  }

  /** `isEqual:` is an equivalence relation, and equal objects hash equal. */
  lemma IsEqualIsEquivalence(a: Id, b: Id, c: Id)
    ensures IsEqual(a, a)
    ensures IsEqual(a, b) ==> IsEqual(b, a)
    ensures IsEqual(a, b) && IsEqual(b, c) ==> IsEqual(a, c)
    ensures IsEqual(a, b) ==> Hash(a) == Hash(b)
  {
  }

  /**
   * What `msg![env; this class]` answers through NSObject's own `class`
   * methods: a class object (one registered in the class table) answers
   * itself (`+class`), an instance the word in its `isa` (`-class`).
   */
  function ClassOf(t: ClassTable, mem: Memory, obj: Id): (r: Result<Class>)
    ensures r.Ok? <==> obj in t || obj in mem
    ensures obj in t ==> r == Ok(obj)
    ensures obj !in t && obj in mem ==> r == Ok(mem[obj])
    ensures obj !in t && obj !in mem ==> r == Fatal(UnmappedAddress(obj))
  {
    if obj in t then Ok(obj) else ReadIsa(mem, obj)
  }

  /** `-isMemberOfClass:`: the receiver's class is exactly `cls`. */
  function IsMemberOfClass(t: ClassTable, mem: Memory, obj: Id, cls: Class): (r: Result<bool>)
    ensures r.Ok? <==> obj in t || obj in mem
    ensures r.Ok? ==> (r.value <==> ClassOf(t, mem, obj).value == cls)
  {
    match ClassOf(t, mem, obj)
    case Fatal(p) => Fatal(p)
    case Ok(c) => Ok(c == cls)
  }

  /** `-isKindOfClass:`: the receiver's class is `cls` or a subclass of it. */
  function IsKindOfClass(t: ClassTable, mem: Memory, obj: Id, cls: Class): (r: Result<bool>)
    ensures r.Ok? <==> obj in t || obj in mem
    ensures r.Ok? ==> (r.value <==> IsSubclassOf(t, ClassOf(t, mem, obj).value, cls))
  {
    match ClassOf(t, mem, obj)
    case Fatal(p) => Fatal(p)
    case Ok(c) => Ok(IsSubclassOf(t, c, cls))
  }

  /** A member of a class is a kind of that class. */
  lemma MemberImpliesKind(t: ClassTable, mem: Memory, obj: Id, cls: Class)
    requires IsMemberOfClass(t, mem, obj, cls) == Ok(true)
    ensures IsKindOfClass(t, mem, obj, cls) == Ok(true)
  {
    SubclassReflexive(t, cls);
  }

  /** A kind of a class is a kind of each of its superclasses too. */
  lemma KindOfSuperclass(t: ClassTable, mem: Memory, obj: Id, cls: Class, sup: Class)
    requires IsKindOfClass(t, mem, obj, cls) == Ok(true) && IsSubclassOf(t, cls, sup)
    ensures IsKindOfClass(t, mem, obj, sup) == Ok(true)
  {
    SubclassTransitive(t, ClassOf(t, mem, obj).value, cls, sup);
  }

  /** `+instancesRespondToSelector:`: the class or a superclass implements `sel`. */
  function InstancesRespondToSelector(t: ClassTable, cls: Class, sel: SEL): (r: bool)
    ensures r <==> exists b :: IsSubclassOf(t, cls, b) && b in t && sel in t[b].methods
  {
    if HasMethod(t, cls, sel) then MethodFoundInHierarchy(t, cls, sel); true
    else
      assert forall b :: IsSubclassOf(t, cls, b) && b in t ==> sel !in t[b].methods by {
        forall b | IsSubclassOf(t, cls, b) && b in t
          ensures sel !in t[b].methods
        {
          if sel in t[b].methods {
            MethodInherited(t, cls, b, sel);
          }
        }
      }
      false
  }

  /** `-respondsToSelector:`: the receiver's class answers `instancesRespondToSelector:`. */
  function RespondsToSelector(t: ClassTable, mem: Memory, obj: Id, sel: SEL): (r: Result<bool>)
    ensures r.Ok? <==> obj in t || obj in mem
    ensures r.Ok? ==> r.value == InstancesRespondToSelector(t, ClassOf(t, mem, obj).value, sel)
  {
    match ClassOf(t, mem, obj)
    case Fatal(p) => Fatal(p)
    case Ok(c) => Ok(HasMethod(t, c, sel))
  }

  /** An object responds to every selector a class it is a kind of implements. */
  lemma RespondsToInherited(t: ClassTable, mem: Memory, obj: Id, cls: Class, sel: SEL)
    requires IsKindOfClass(t, mem, obj, cls) == Ok(true) && cls in t && sel in t[cls].methods
    ensures RespondsToSelector(t, mem, obj, sel) == Ok(true)
  {
    MethodInherited(t, ClassOf(t, mem, obj).value, cls, sel);
  }

  /**
   * A class object is a member of itself, is a kind of exactly its
   * superclasses, and responds to the instance methods of its hierarchy,
   * whatever its `isa` word holds.
   */
  lemma ClassObjectAnswersItself(t: ClassTable, mem: Memory, cls: Class, other: Class, sel: SEL)
    requires cls in t
    ensures IsMemberOfClass(t, mem, cls, other) == Ok(cls == other)
    ensures IsKindOfClass(t, mem, cls, other) == Ok(IsSubclassOf(t, cls, other))
    ensures RespondsToSelector(t, mem, cls, sel) ==
            Ok(exists b :: IsSubclassOf(t, cls, b) && b in t && sel in t[b].methods)
  {
  }

  // ---------------------------------------------------------------------
  // Key-value coding: setValue:forKey:
  // ---------------------------------------------------------------------

  /** Is every character of `s` ASCII (as `str::is_ascii`)? */
  function IsAscii(s: string): (r: bool)
    ensures r <==> forall c :: c in s ==> c as int < 128
  {
    var ascii := forall i :: 0 <= i < |s| ==> s[i] as int < 128;
    assert ascii ==> forall c :: c in s ==> c as int < 128 by {
      if ascii {
        forall c | c in s
          ensures c as int < 128
        {
          var i :| 0 <= i < |s| && s[i] == c;
        }
      }
    }
    assert (forall c :: c in s ==> c as int < 128) ==> ascii by {
      if forall c :: c in s ==> c as int < 128 {
        forall i | 0 <= i < |s|
          ensures s[i] as int < 128
        {
          assert s[i] in s;
        }
      }
    }
    ascii
  }

  /** `u8::to_ascii_uppercase`: `a`..`z` become `A`..`Z`; every other character stays. */
  function ToAsciiUpper(c: char): (u: char)
    ensures 'a' <= c <= 'z' ==> 'A' <= u <= 'Z' && u as int - 'A' as int == c as int - 'a' as int
    ensures !('a' <= c <= 'z') ==> u == c
  {
    if 'a' <= c <= 'z' then (c as int - 32) as char else c
  }

  /**
   * The `<Key>` of the candidate names: the key with only its first
   * character upper-cased.
   */
  function Capitalized(key: string): (k: string)
    requires key != []
    ensures |k| == |key| && k[0] == ToAsciiUpper(key[0])
    ensures forall i :: 1 <= i < |key| ==> k[i] == key[i]
  {
    [ToAsciiUpper(key[0])] + key[1..]
  }

  /** The accessor names tried, in order: `set<Key>:` then `_set<Key>:`. */
  function SetterCandidates(key: string): (r: seq<string>)
    requires key != []
    ensures |r| == 2 && |r[0]| == |key| + 4 && r[1] == "_" + r[0]
    ensures r[0][..3] == "set" && r[0][3] == ToAsciiUpper(key[0])
    ensures r[0][4..|key| + 3] == key[1..] && r[0][|key| + 3] == ':'
  {
    ["set" + Capitalized(key) + ":", "_set" + Capitalized(key) + ":"]
  }

  /**
   * The ivar names tried, in order, as the source spells them:
   * `_<key>`, `_is<Key>:`, `<key>`, `is<Key>:`.
   */
  function IvarCandidates(key: string): (r: seq<string>)
    requires key != []
    ensures |r| == 4 && r[0] == "_" + key && r[2] == key && r[1] == "_" + r[3]
    ensures |r[3]| == |key| + 3 && r[3][..2] == "is" && r[3][2] == ToAsciiUpper(key[0])
    ensures r[3][3..|key| + 2] == key[1..] && r[3][|key| + 2] == ':'
  {
    ["_" + key, "_is" + Capitalized(key) + ":", key, "is" + Capitalized(key) + ":"]
  }

  /** The accessor `name` can be used: it is interned and the class implements it. */
  function SetterAvailable(t: ClassTable, sels: set<string>, cls: Class, name: string): (r: bool)
    ensures r <==> name in sels && exists b :: IsSubclassOf(t, cls, b) && b in t && Sel(name) in t[b].methods
  {
    LookupSelector(sels, name).Some? && InstancesRespondToSelector(t, cls, Sel(name))
  }

  /** The offset word of ivar `name` when the name is interned and the class has the ivar. */
  function IvarSlot(t: ClassTable, sels: set<string>, cls: Class, name: string): (r: Option<Addr>)
    ensures r.Some? ==> name in sels && exists b :: IsSubclassOf(t, cls, b) && b in t && Sel(name) in t[b].ivars
                                                   && r.value == t[b].ivars[Sel(name)]
    ensures name in sels && (exists b :: IsSubclassOf(t, cls, b) && b in t && Sel(name) in t[b].ivars) ==> r.Some?
  {
    match LookupSelector(sels, name)
    case None => None
    case Some(sel) =>
      assert (exists b :: IsSubclassOf(t, cls, b) && b in t && sel in t[b].ivars) ==> HasIvar(t, cls, sel).Some? by {
        if exists b :: IsSubclassOf(t, cls, b) && b in t && sel in t[b].ivars {
          var b :| IsSubclassOf(t, cls, b) && b in t && sel in t[b].ivars;
          IvarInherited(t, cls, b, sel);
        }
      }
      if HasIvar(t, cls, sel).Some? then IvarFoundInHierarchy(t, cls, sel); HasIvar(t, cls, sel)
      else None
  }

  /** The index of the first usable accessor among `names`. */
  function FirstSetter(t: ClassTable, sels: set<string>, cls: Class, names: seq<string>): (r: Option<nat>)
    ensures r.Some? ==> r.value < |names| && SetterAvailable(t, sels, cls, names[r.value])
    ensures r.Some? ==> forall j :: 0 <= j < r.value ==> !SetterAvailable(t, sels, cls, names[j])
    ensures r.None? <==> forall j :: 0 <= j < |names| ==> !SetterAvailable(t, sels, cls, names[j])
  {
    if names == [] then None
    else if SetterAvailable(t, sels, cls, names[0]) then Some(0)
    else match FirstSetter(t, sels, cls, names[1..])
      case None => None
      case Some(i) => Some(i + 1)
  }

  /** The index of the first ivar found among `names`. */
  function FirstIvar(t: ClassTable, sels: set<string>, cls: Class, names: seq<string>): (r: Option<nat>)
    ensures r.Some? ==> r.value < |names| && IvarSlot(t, sels, cls, names[r.value]).Some?
    ensures r.Some? ==> forall j :: 0 <= j < r.value ==> IvarSlot(t, sels, cls, names[j]).None?
    ensures r.None? <==> forall j :: 0 <= j < |names| ==> IvarSlot(t, sels, cls, names[j]).None?
  {
    if names == [] then None
    else if IvarSlot(t, sels, cls, names[0]).Some? then Some(0)
    else match FirstIvar(t, sels, cls, names[1..])
      case None => None
      case Some(i) => Some(i + 1)
  }

  /** NSObject's own answer to `+accessInstanceVariablesDirectly`. */
  const NSOBJECT_ACCESS_IVARS_DIRECTLY: bool := true

  /**
   * What `cls` answers to `+accessInstanceVariablesDirectly`: the override
   * of the nearest class, walking from `cls` up, that declares one, or
   * NSObject's answer when none does. A class not in the table is fatal.
   */
  function AccessInstanceVariablesDirectly(t: ClassTable, cls: Class): (r: Result<bool>)
    ensures r.Ok? <==> cls in t
    ensures cls in t && t[cls].accessIvarsDirectly.Some? ==> r == Ok(t[cls].accessIvarsDirectly.value)
    decreases Rank(t, cls)
  {
    if cls !in t then Fatal(UnknownClass(cls))
    else match t[cls].accessIvarsDirectly
      case Some(answer) => Ok(answer)
      case None =>
        match Parent(t, cls)
        case None => Ok(NSOBJECT_ACCESS_IVARS_DIRECTLY)
        case Some(p) => AccessInstanceVariablesDirectly(t, p)
  }

  /** A class none of whose hierarchy overrides it answers true, as NSObject does. */
  lemma {:induction false} AccessDefaultIsTrue(t: ClassTable, cls: Class)
    requires cls in t
    requires forall b :: IsSubclassOf(t, cls, b) && b in t ==> t[b].accessIvarsDirectly.None?
    ensures AccessInstanceVariablesDirectly(t, cls) == Ok(true)
    decreases Rank(t, cls)
  {
    SubclassReflexive(t, cls);
    if Parent(t, cls).Some? {
      var p := Parent(t, cls).value;
      forall b | IsSubclassOf(t, p, b) && b in t
        ensures t[b].accessIvarsDirectly.None?
      {
        assert IsSubclassOf(t, cls, b);
      }
      AccessDefaultIsTrue(t, p);
    }
  }

  /**
   * The nearest override wins: when `b` overrides the answer and no class
   * from `cls` up to below `b` does, `cls` answers what `b` says.
   */
  lemma {:induction false} AccessNearestOverride(t: ClassTable, cls: Class, b: Class)
    requires IsSubclassOf(t, cls, b) && b in t && t[b].accessIvarsDirectly.Some?
    requires forall c :: IsSubclassOf(t, cls, c) && IsSubclassOf(t, c, b) && c != b && c in t ==>
               t[c].accessIvarsDirectly.None?
    ensures AccessInstanceVariablesDirectly(t, cls) == Ok(t[b].accessIvarsDirectly.value)
    decreases Rank(t, cls)
  {
    if cls != b {
      SubclassReflexive(t, cls);
      var p := Parent(t, cls).value;
      forall c | IsSubclassOf(t, p, c) && IsSubclassOf(t, c, b) && c != b && c in t
        ensures t[c].accessIvarsDirectly.None?
      {
        assert IsSubclassOf(t, cls, c);
      }
      AccessNearestOverride(t, p, b);
    }
  }

  /** What `setValue:forKey:` ends up doing. */
  datatype KvcStep =
    | CallSetter(setter: SEL)
    | StoreIvar(offsetPtr: Addr)
    | CallUndefinedKey(handler: SEL)

  /**
   * The key-value coding search, stated as first matches over the
   * candidate lists: the first usable accessor; failing that, and only
   * when the class allows direct ivar access, the first ivar found;
   * failing that, the undefined-key handler. A non-ASCII or empty key, an
   * unmapped receiver, or a lookup the source unwraps that finds nothing,
   * is fatal.
   */
  function ResolveSetValue(t: ClassTable, sels: set<string>, mem: Memory, obj: Id, key: string): Result<KvcStep> {
    if !IsAscii(key) then Fatal(NonAsciiKey(key))
    else match ClassOf(t, mem, obj)
      case Fatal(p) => Fatal(p)
      case Ok(cls) =>
        if key == [] then Fatal(EmptyKey)
        else match FirstSetter(t, sels, cls, SetterCandidates(key))
          case Some(i) => Ok(CallSetter(Sel(SetterCandidates(key)[i])))
          case None =>
            if ACCESS_IVARS_DIRECTLY !in sels then Fatal(SelectorNotInterned(ACCESS_IVARS_DIRECTLY))
            else match AccessInstanceVariablesDirectly(t, cls)
              case Fatal(p) => Fatal(p)
              case Ok(direct) =>
                match (if direct then FirstIvar(t, sels, cls, IvarCandidates(key)) else None)
                case Some(i) => Ok(StoreIvar(IvarSlot(t, sels, cls, IvarCandidates(key)[i]).value))
                case None =>
                  if SET_VALUE_FOR_UNDEFINED_KEY in sels then Ok(CallUndefinedKey(Sel(SET_VALUE_FOR_UNDEFINED_KEY)))
                  else Fatal(SelectorNotInterned(SET_VALUE_FOR_UNDEFINED_KEY))
  }

  /** Where a value for the ivar whose offset word is at `offsetPtr` goes: `obj` plus that offset. */
  function IvarAddress(mem: Memory, obj: Id, offsetPtr: Addr): (r: Addr)
    requires offsetPtr in mem
    ensures r == (obj + mem[offsetPtr]) % WORD_MODULUS
    ensures obj + mem[offsetPtr] < WORD_MODULUS ==> r == obj + mem[offsetPtr]
  {
    WrappingAdd(obj, mem[offsetPtr])
  }

  /**
   * Storing `value` in an ivar: read the offset word, add it to the object's
   * address, write there. Exactly that one word changes.
   */
  function IvarStore(mem: Memory, obj: Id, offsetPtr: Addr, value: Word): (r: Result<Memory>)
    ensures r.Ok? <==> offsetPtr in mem && IvarAddress(mem, obj, offsetPtr) in mem
    ensures r.Ok? ==> r.value.Keys == mem.Keys && r.value[IvarAddress(mem, obj, offsetPtr)] == value
    ensures r.Ok? ==> forall a :: a in mem && a != IvarAddress(mem, obj, offsetPtr) ==> r.value[a] == mem[a]
  {
    match Read(mem, offsetPtr)
    case None => Fatal(UnmappedAddress(offsetPtr))
    case Some(offset) =>
      var addr := WrappingAdd(obj, offset);
      match Write(mem, addr, value)
      case None => Fatal(UnmappedAddress(addr))
      case Some(m) => Ok(m)
  }

  /** One direct ivar store, as each of the four ivar branches of the source does it. */
  method WriteIvar(env: Env, obj: Id, offsetPtr: Addr, value: Id) returns (r: Result<()>)
    modifies env`mem
    ensures match IvarStore(old(env.mem), obj, offsetPtr, value)
            case Ok(m) => r == Ok(()) && env.mem == m
            case Fatal(p) => r == Fatal(p) && env.mem == old(env.mem)
  {
    var offset := Read(env.mem, offsetPtr);
    if offset.None? {
      return Fatal(UnmappedAddress(offsetPtr));
    }
    var ivarPtr := WrappingAdd(obj, offset.value);
    var written := Write(env.mem, ivarPtr, value);
    if written.None? {
      return Fatal(UnmappedAddress(ivarPtr));
    }
    env.mem := written.value;
    r := Ok(());
  }

  /** The first of two accessors, spelled out. */
  lemma FirstSetterOfTwo(t: ClassTable, sels: set<string>, cls: Class, a: string, b: string)
    ensures FirstSetter(t, sels, cls, [a, b]) ==
      if SetterAvailable(t, sels, cls, a) then Some(0)
      else if SetterAvailable(t, sels, cls, b) then Some(1)
      else None
  {
    assert [a, b][1..] == [b];
    assert [b][1..] == [];
  }

  /** The first of four ivars, spelled out. */
  lemma FirstIvarOfFour(t: ClassTable, sels: set<string>, cls: Class, a: string, b: string, c: string, d: string)
    ensures FirstIvar(t, sels, cls, [a, b, c, d]) ==
      if IvarSlot(t, sels, cls, a).Some? then Some(0)
      else if IvarSlot(t, sels, cls, b).Some? then Some(1)
      else if IvarSlot(t, sels, cls, c).Some? then Some(2)
      else if IvarSlot(t, sels, cls, d).Some? then Some(3)
      else None
  {
    assert [d][1..] == [];
    assert FirstIvar(t, sels, cls, [d]) == if IvarSlot(t, sels, cls, d).Some? then Some(0) else None;
    assert [c, d][1..] == [d];
    assert FirstIvar(t, sels, cls, [c, d]) ==
      if IvarSlot(t, sels, cls, c).Some? then Some(0)
      else if IvarSlot(t, sels, cls, d).Some? then Some(1)
      else None;
    assert [b, c, d][1..] == [c, d];
    assert FirstIvar(t, sels, cls, [b, c, d]) ==
      if IvarSlot(t, sels, cls, b).Some? then Some(0)
      else if IvarSlot(t, sels, cls, c).Some? then Some(1)
      else if IvarSlot(t, sels, cls, d).Some? then Some(2)
      else None;
    assert [a, b, c, d][1..] == [b, c, d];
  }

  /**
   * `-setValue:forKey:`, step by step as the source runs it. `keyString` is
   * the text of the key object `key`. The outcome is the one
   * `ResolveSetValue` describes: one setter message, one ivar word
   * written, or one undefined-key message.
   */
  method SetValueForKey(env: Env, obj: Id, value: Id, key: Id, keyString: string) returns (r: Result<()>)
    modifies env`mem, env`trace
    ensures match ResolveSetValue(env.classes, env.selectors, old(env.mem), obj, keyString)
            case Fatal(p) =>
              r == Fatal(p) && env.mem == old(env.mem) && env.trace == old(env.trace)
            case Ok(CallSetter(sel)) =>
              r == Ok(()) && env.mem == old(env.mem) &&
              env.trace == old(env.trace) + [Message(Instance(obj), sel, [value])]
            case Ok(StoreIvar(ptr)) =>
              env.trace == old(env.trace) &&
              (match IvarStore(old(env.mem), obj, ptr, value)
               case Ok(m) => r == Ok(()) && env.mem == m
               case Fatal(p) => r == Fatal(p) && env.mem == old(env.mem))
            case Ok(CallUndefinedKey(sel)) =>
              r == Ok(()) && env.mem == old(env.mem) &&
              env.trace == old(env.trace) + [Message(Instance(obj), sel, [value, key])]
  {
    if !IsAscii(keyString) {
      return Fatal(NonAsciiKey(keyString));
    }
    var classOf := ClassOf(env.classes, env.mem, obj);
    if classOf.Fatal? {
      return Fatal(classOf.panic);
    }
    var cls := classOf.value;
    if keyString == [] {
      return Fatal(EmptyKey);
    }
    var upper := Capitalized(keyString);
    FirstSetterOfTwo(env.classes, env.selectors, cls, "set" + upper + ":", "_set" + upper + ":");

    // set<Key>:, then _set<Key>:
    var sel := LookupSelector(env.selectors, "set" + upper + ":");
    if sel.Some? && HasMethod(env.classes, cls, sel.value) {
      env.trace := env.trace + [Message(Instance(obj), sel.value, [value])];
      return Ok(());
    }
    sel := LookupSelector(env.selectors, "_set" + upper + ":");
    if sel.Some? && HasMethod(env.classes, cls, sel.value) {
      env.trace := env.trace + [Message(Instance(obj), sel.value, [value])];
      return Ok(());
    }

    // _<key>, _is<Key>:, <key>, is<Key>: when the class allows it
    var access := LookupSelector(env.selectors, ACCESS_IVARS_DIRECTLY);
    if access.None? {
      return Fatal(SelectorNotInterned(ACCESS_IVARS_DIRECTLY));
    }
    var direct := AccessInstanceVariablesDirectly(env.classes, cls);
    if direct.Fatal? {
      return Fatal(direct.panic);
    }
    if direct.value {
      FirstIvarOfFour(env.classes, env.selectors, cls,
        "_" + keyString, "_is" + upper + ":", keyString, "is" + upper + ":");
      sel := LookupSelector(env.selectors, "_" + keyString);
      if sel.Some? {
        var ptr := HasIvar(env.classes, cls, sel.value);
        if ptr.Some? {
          r := WriteIvar(env, obj, ptr.value, value);
          return;
        }
      }
      sel := LookupSelector(env.selectors, "_is" + upper + ":");
      if sel.Some? {
        var ptr := HasIvar(env.classes, cls, sel.value);
        if ptr.Some? {
          r := WriteIvar(env, obj, ptr.value, value);
          return;
        }
      }
      sel := LookupSelector(env.selectors, keyString);
      if sel.Some? {
        var ptr := HasIvar(env.classes, cls, sel.value);
        if ptr.Some? {
          r := WriteIvar(env, obj, ptr.value, value);
          return;
        }
      }
      sel := LookupSelector(env.selectors, "is" + upper + ":");
      if sel.Some? {
        var ptr := HasIvar(env.classes, cls, sel.value);
        if ptr.Some? {
          r := WriteIvar(env, obj, ptr.value, value);
          return;
        }
      }
    }

    // setValue:forUndefinedKey:
    var handler := LookupSelector(env.selectors, SET_VALUE_FOR_UNDEFINED_KEY);
    if handler.None? {
      return Fatal(SelectorNotInterned(SET_VALUE_FOR_UNDEFINED_KEY));
    }
    env.trace := env.trace + [Message(Instance(obj), handler.value, [value, key])];
    r := Ok(());
  }

  /**
   * NSObject's `-setValue:forUndefinedKey:`: always fatal, naming the
   * receiver, its class and the key.
   */
  method SetValueForUndefinedKey(env: Env, obj: Id, value: Id, key: Id, keyString: string) returns (r: Result<()>)
    ensures r.Fatal?
    ensures obj in env.mem ==> r == Fatal(UndefinedKey(obj, env.mem[obj], keyString))
    ensures obj !in env.mem ==> r == Fatal(UnmappedAddress(obj))
  {
    var isa := ReadIsa(env.mem, obj);
    if isa.Fatal? {
      return Fatal(isa.panic);
    }
    r := Fatal(UndefinedKey(obj, isa.value, keyString));
  }

  // Properties of the search

  /** `set<Key>:` is called exactly when it is usable: interned and implemented. */
  lemma SetterTriedFirst(t: ClassTable, sels: set<string>, mem: Memory, obj: Id, cls: Class, key: string)
    requires IsAscii(key) && key != [] && ClassOf(t, mem, obj) == Ok(cls)
    ensures ResolveSetValue(t, sels, mem, obj, key) == Ok(CallSetter(Sel("set" + Capitalized(key) + ":")))
        <==> SetterAvailable(t, sels, cls, "set" + Capitalized(key) + ":")
  {
    var cands := SetterCandidates(key);
    FirstSetterOfTwo(t, sels, cls, cands[0], cands[1]);
    assert cands[0] != cands[1] by {
      assert cands[0][0] == 's' && cands[1][0] == '_';
    }
    match ResolveSetValue(t, sels, mem, obj, key)
    case Ok(CallSetter(s)) =>
    case Ok(_) =>
    case Fatal(_) =>
  }

  /** `_set<Key>:` is called exactly when `set<Key>:` is not usable and it is. */
  lemma UnderscoreSetterSecond(t: ClassTable, sels: set<string>, mem: Memory, obj: Id, cls: Class, key: string)
    requires IsAscii(key) && key != [] && ClassOf(t, mem, obj) == Ok(cls)
    ensures ResolveSetValue(t, sels, mem, obj, key) == Ok(CallSetter(Sel("_set" + Capitalized(key) + ":")))
        <==> !SetterAvailable(t, sels, cls, "set" + Capitalized(key) + ":")
             && SetterAvailable(t, sels, cls, "_set" + Capitalized(key) + ":")
  {
    var cands := SetterCandidates(key);
    FirstSetterOfTwo(t, sels, cls, cands[0], cands[1]);
    assert cands[0] != cands[1] by {
      assert cands[0][0] == 's' && cands[1][0] == '_';
    }
    match ResolveSetValue(t, sels, mem, obj, key)
    case Ok(CallSetter(s)) =>
    case Ok(_) =>
    case Fatal(_) =>
  }

  /**
   * An ivar is written only when no accessor is usable and the class
   * allows direct access; the ivar is the first candidate found, and its
   * offset word is the one `class_has_ivar` gives for that name.
   */
  lemma IvarOnlyWhenDirect(t: ClassTable, sels: set<string>, mem: Memory, obj: Id, key: string, ptr: Addr)
    requires ResolveSetValue(t, sels, mem, obj, key) == Ok(StoreIvar(ptr))
    ensures key != [] && ClassOf(t, mem, obj).Ok? && ClassOf(t, mem, obj).value in t
    ensures forall j :: 0 <= j < 2 ==> !SetterAvailable(t, sels, ClassOf(t, mem, obj).value, SetterCandidates(key)[j])
    ensures ACCESS_IVARS_DIRECTLY in sels && AccessInstanceVariablesDirectly(t, ClassOf(t, mem, obj).value) == Ok(true)
    ensures FirstIvar(t, sels, ClassOf(t, mem, obj).value, IvarCandidates(key)).Some?
    ensures ptr == IvarSlot(t, sels, ClassOf(t, mem, obj).value, IvarCandidates(key)[FirstIvar(t, sels, ClassOf(t, mem, obj).value, IvarCandidates(key)).value]).value
  {
  }

  /**
   * Conversely, with no usable accessor and direct access allowed, the
   * first ivar candidate found is the one written.
   */
  lemma IvarWrittenWhenDirect(t: ClassTable, sels: set<string>, mem: Memory, obj: Id, cls: Class, key: string)
    requires IsAscii(key) && key != [] && ClassOf(t, mem, obj) == Ok(cls)
    requires forall j :: 0 <= j < 2 ==> !SetterAvailable(t, sels, cls, SetterCandidates(key)[j])
    requires ACCESS_IVARS_DIRECTLY in sels && AccessInstanceVariablesDirectly(t, cls) == Ok(true)
    requires FirstIvar(t, sels, cls, IvarCandidates(key)).Some?
    ensures ResolveSetValue(t, sels, mem, obj, key) ==
      Ok(StoreIvar(IvarSlot(t, sels, cls, IvarCandidates(key)[FirstIvar(t, sels, cls, IvarCandidates(key)).value]).value))
  {
  }

  /**
   * The undefined-key handler is reached exactly when no accessor is
   * usable and either the class refuses direct access or no ivar candidate
   * is found (given a well-formed key, a mapped receiver whose class is
   * registered, and both unwrapped selectors interned).
   */
  lemma UndefinedIffNothingMatches(t: ClassTable, sels: set<string>, mem: Memory, obj: Id, cls: Class, key: string)
    requires IsAscii(key) && key != [] && ClassOf(t, mem, obj) == Ok(cls) && cls in t
    requires ACCESS_IVARS_DIRECTLY in sels && SET_VALUE_FOR_UNDEFINED_KEY in sels
    ensures ResolveSetValue(t, sels, mem, obj, key) == Ok(CallUndefinedKey(Sel(SET_VALUE_FOR_UNDEFINED_KEY)))
        <==> (forall j :: 0 <= j < 2 ==> !SetterAvailable(t, sels, cls, SetterCandidates(key)[j]))
             && (AccessInstanceVariablesDirectly(t, cls) == Ok(false) ||
                 forall j :: 0 <= j < 4 ==> IvarSlot(t, sels, cls, IvarCandidates(key)[j]).None?)
  {
  }

  /**
   * A non-ASCII or empty key fails fast: a non-ASCII key before anything
   * else, an empty key right after the receiver's class is read.
   */
  lemma BadKeyFailsFast(t: ClassTable, sels: set<string>, mem: Memory, obj: Id, key: string)
    requires !IsAscii(key) || key == []
    ensures ResolveSetValue(t, sels, mem, obj, key).Fatal?
    ensures !IsAscii(key) ==> ResolveSetValue(t, sels, mem, obj, key) == Fatal(NonAsciiKey(key))
    ensures key == [] && (obj in t || obj in mem) ==> ResolveSetValue(t, sels, mem, obj, key) == Fatal(EmptyKey)
    ensures key == [] && obj !in t && obj !in mem ==> ResolveSetValue(t, sels, mem, obj, key) == Fatal(UnmappedAddress(obj))
  {
  }

  /** `_is<Key>:` and `is<Key>:` end in `:`. */
  lemma ColonCandidates(key: string)
    requires key != []
    ensures IvarCandidates(key)[1][|IvarCandidates(key)[1]| - 1] == ':'
    ensures IvarCandidates(key)[3][|IvarCandidates(key)[3]| - 1] == ':'
  {
  }

  /** No ivar name anywhere in the table contains `:`. */
  ghost predicate ColonFreeIvarNames(t: ClassTable) {
    forall c, s :: c in t && s in t[c].ivars ==> s.Sel? && forall k :: 0 <= k < |s.name| ==> s.name[k] != ':'
  }

  /**
   * When ivar names are identifiers (no `:`), the search as written finds
   * exactly what trying only `_<key>` and then `<key>` finds, the same
   * offset word included: the `_is<Key>:` and `is<Key>:` candidates never
   * match.
   */
  lemma ColonCandidatesNeverMatch(t: ClassTable, sels: set<string>, cls: Class, key: string)
    requires key != [] && ColonFreeIvarNames(t)
    ensures FirstIvar(t, sels, cls, IvarCandidates(key)).Some? <==>
            FirstIvar(t, sels, cls, ["_" + key, key]).Some?
    ensures FirstIvar(t, sels, cls, IvarCandidates(key)).Some? ==>
            IvarSlot(t, sels, cls, IvarCandidates(key)[FirstIvar(t, sels, cls, IvarCandidates(key)).value]) ==
            IvarSlot(t, sels, cls, ["_" + key, key][FirstIvar(t, sels, cls, ["_" + key, key]).value])
    ensures IvarSlot(t, sels, cls, IvarCandidates(key)[1]).None?
    ensures IvarSlot(t, sels, cls, IvarCandidates(key)[3]).None?
  {
    var cands := IvarCandidates(key);
    FirstIvarOfFour(t, sels, cls, cands[0], cands[1], cands[2], cands[3]);
    assert ["_" + key, key][1..] == [key];
    assert [key][1..] == [];
    forall i | i == 1 || i == 3
      ensures IvarSlot(t, sels, cls, cands[i]).None?
    {
      ColonCandidates(key);
      var name := cands[i];
      if IvarSlot(t, sels, cls, name).Some? {
        IvarFoundInHierarchy(t, cls, Sel(name));
      }
    }
  }

  // ---------------------------------------------------------------------
  // Performing selectors
  // ---------------------------------------------------------------------

  /**
   * `-performSelector:`, `-performSelector:withObject:` and
   * `-performSelector:withObject:withObject:`: a null selector is fatal;
   * otherwise `sel` is sent to `obj` with `args`.
   */
  method PerformSelector(env: Env, obj: Id, sel: SEL, args: seq<Id>) returns (r: Result<()>)
    requires |args| <= 2
    modifies env`trace
    ensures sel == NullSel ==> r == Fatal(NullSelector) && env.trace == old(env.trace)
    ensures sel != NullSel ==> r == Ok(()) && env.trace == old(env.trace) + [Message(Instance(obj), sel, args)]
  {
    if sel == NullSel {
      return Fatal(NullSelector);
    }
    env.trace := env.trace + [Message(Instance(obj), sel, args)];
    r := Ok(());
  }

  /**
   * The `userInfo` dictionary of a main-thread perform: the string object
   * `selStr` holding the selector's name, and the argument.
   */
  function PerformPayload(selStr: Id, selName: string, arg: Id): (p: Payload)
    ensures p.Keys == {SEL_KEY, ARG_KEY}
    ensures p[SEL_KEY] == StringValue(selStr, selName) && p[ARG_KEY].obj == arg
  {
    map[SEL_KEY := StringValue(selStr, selName), ARG_KEY := ObjectValue(arg)]
  }

  /**
   * What `timerFireMethod:` reads back from a `userInfo` dictionary: the
   * selector named under "SEL" (which must be a string and interned) and
   * whatever object is under "arg", a string or not (nil when absent).
   */
  function UnpackPayload(sels: set<string>, p: Payload): (r: Result<(SEL, Id)>)
    ensures r.Ok? <==> SEL_KEY in p && p[SEL_KEY].StringValue? && p[SEL_KEY].s in sels
    ensures r.Ok? ==> r.value.0 == Sel(p[SEL_KEY].s)
    ensures r.Ok? ==> r.value.1 == if ARG_KEY in p then p[ARG_KEY].obj else NIL
    ensures SEL_KEY in p && p[SEL_KEY].StringValue? && p[SEL_KEY].s !in sels ==>
              r == Fatal(SelectorNotInterned(p[SEL_KEY].s))
  {
    if SEL_KEY !in p || !p[SEL_KEY].StringValue? then Fatal(MalformedPayload(SEL_KEY))
    else match LookupSelector(sels, p[SEL_KEY].s)
      case None => Fatal(SelectorNotInterned(p[SEL_KEY].s))
      case Some(sel) =>
        if ARG_KEY !in p then Ok((sel, NIL))
        else Ok((sel, p[ARG_KEY].obj))
  }

  /** Unpacking what a main-thread perform packed gives back its selector and argument. */
  lemma PayloadRoundTrip(sels: set<string>, selStr: Id, sel: SEL, arg: Id)
    requires sel.Sel? && sel.name in sels
    ensures UnpackPayload(sels, PerformPayload(selStr, sel.name, arg)) == Ok((sel, arg))
  {
  }

  /**
   * `-performSelectorOnMainThread:withObject:waitUntilDone:`: waiting is
   * not supported; otherwise a non-repeating zero-interval timer that will
   * send `timerFireMethod:` to `obj`, carrying the selector and argument,
   * is added to the main run loop. `selStr` is the string object made for
   * the selector's name (the caller supplies it, as the allocator would).
   */
  method PerformSelectorOnMainThread(env: Env, obj: Id, sel: SEL, arg: Id, wait: bool, selStr: Id) returns (r: Result<()>)
    modifies env`mainRunLoopTimers
    ensures sel == NullSel ==> r == Fatal(NullSelector)
    ensures sel != NullSel && wait ==> r == Fatal(WaitUntilDoneUnsupported)
    ensures sel != NullSel && !wait && TIMER_FIRE_METHOD !in env.selectors ==>
              r == Fatal(SelectorNotInterned(TIMER_FIRE_METHOD))
    ensures r.Fatal? ==> env.mainRunLoopTimers == old(env.mainRunLoopTimers)
    ensures r.Ok? <==> sel != NullSel && !wait && TIMER_FIRE_METHOD in env.selectors
    ensures r.Ok? ==>
              env.mainRunLoopTimers == old(env.mainRunLoopTimers) +
                [Timer(0.0, obj, Sel(TIMER_FIRE_METHOD), PerformPayload(selStr, sel.name, arg), false)]
  {
    if sel == NullSel {
      return Fatal(NullSelector);
    }
    if wait {
      return Fatal(WaitUntilDoneUnsupported);
    }
    var dict := PerformPayload(selStr, sel.name, arg);
    var fire := LookupSelector(env.selectors, TIMER_FIRE_METHOD);
    if fire.None? {
      return Fatal(SelectorNotInterned(TIMER_FIRE_METHOD));
    }
    var timer := Timer(0.0, obj, fire.value, dict, false);
    env.mainRunLoopTimers := env.mainRunLoopTimers + [timer];
    r := Ok(());
  }

  /** `-timerFireMethod:`: send the selector in the timer's `userInfo` to `obj` with the argument. */
  method TimerFireMethod(env: Env, obj: Id, which: Timer) returns (r: Result<()>)
    modifies env`trace
    ensures match UnpackPayload(env.selectors, which.userInfo)
            case Ok((sel, arg)) =>
              r == Ok(()) && env.trace == old(env.trace) + [Message(Instance(obj), sel, [arg])]
            case Fatal(p) => r == Fatal(p) && env.trace == old(env.trace)
  {
    var unpacked := UnpackPayload(env.selectors, which.userInfo);
    if unpacked.Fatal? {
      return Fatal(unpacked.panic);
    }
    var (sel, arg) := unpacked.value;
    env.trace := env.trace + [Message(Instance(obj), sel, [arg])];
    r := Ok(());
  }

  /**
   * A main-thread perform followed by the firing of its timer sends the
   * same selector with the same argument to the same object, once.
   */
  method PerformOnMainThreadThenFire(env: Env, obj: Id, sel: SEL, arg: Id, selStr: Id) returns (r: Result<()>)
    requires sel.Sel? && sel.name in env.selectors && TIMER_FIRE_METHOD in env.selectors
    modifies env`mainRunLoopTimers, env`trace
    ensures r == Ok(())
    ensures env.mainRunLoopTimers == old(env.mainRunLoopTimers) +
              [Timer(0.0, obj, Sel(TIMER_FIRE_METHOD), PerformPayload(selStr, sel.name, arg), false)]
    ensures env.trace == old(env.trace) + [Message(Instance(obj), sel, [arg])]
  {
    r := PerformSelectorOnMainThread(env, obj, sel, arg, false, selStr);
    var timer := env.mainRunLoopTimers[|env.mainRunLoopTimers| - 1];
    PayloadRoundTrip(env.selectors, selStr, sel, arg);
    r := TimerFireMethod(env, timer.target, timer);
  }
}
