# NSObject runtime rules and CoreGraphics geometry values, in Dafny

This project models two parts of touchHLE, an emulator that runs 32-bit
iPhone OS apps:

- `NSObject`, the root class of the emulated Foundation. That covers
  reference counting for classes and instances, identity and hashing,
  class membership, and selector queries. It also covers the key-value
  coding search behind `-setValue:forKey:` and the main-thread perform
  that goes through a one-shot `NSTimer`.
- The CoreGraphics value types `CGPoint`, `CGSize` and `CGRect`. For each
  it models how the value is passed in guest registers (`GuestArg`:
  `REG_COUNT`, `from_regs`, `to_regs`) and its text form (`FromStr` and
  `Display`, with the grammar `{x, y}` and `{{x, y}, {w, h}}`).

Files:

- `guest.dfy` (module `Guest`): 32-bit guest words and addresses, and guest
  memory seen as one word per mapped address. Also `u32` wrapping addition.
- `str_ops.dfy` (module `StrOps`): `strip_prefix`, `strip_suffix` and
  `split_once`, which the geometry parsers are built from.
- `objc_runtime.dfy` (module `ObjCRuntime`): the runtime services
  `NSObject` calls but whose code is not part of this model. They are the
  class table and its superclass walk, selector interning, the
  reference-count table and the `isa` read. Each is given by the contract
  `NSObject` relies on. The module also holds the emulator state `Env`
  (a class).
- `ns_object.dfy` (module `NSObject`): the `NSObject` methods.
- `cg_geometry.dfy` (module `CGGeometry`): the geometry types.

Modelling choices:

- A message that `NSObject` sends to code outside this model is appended to
  `Env.trace` instead of being run. This covers a found setter, `dealloc`,
  `setValue:forUndefinedKey:`, the autorelease pool's `addObject:`, and a
  performed selector. A contract can then say exactly which messages a
  method sends, and in what order.
- A Rust panic (`assert!`, `unwrap`, a read of unmapped memory) becomes a
  `Fatal(panic)` result. A method that returns `Fatal` leaves `Env` as it
  was.
- Each class records its registration index. A superclass link is followed
  only when it points to a class registered earlier. So every hierarchy walk
  ends, and the subclass relation is a partial order.
- A reference count is at least one while the object is tracked. When the
  count is one, `decrement_refcount` reports "no owners left" and leaves the
  entry in place. `-dealloc` then removes it.
- `this + offset` for an ivar store is `u32` addition modulo 2^32.
- A `CGFloat` is kept as its 32-bit pattern. Turning a float into text and
  back is a parameter `FieldCodec` of the text lemmas. The lemmas state
  what they assume about it. The parse-of-format round trips assume
  `FieldRoundTrips` for each field of the value: the field's text parses
  back to it and has no `,`, `{` or `}`. The format-of-parse lemmas
  assume `Canonical`: every text that parses is the way its value is
  written.
- The real `f32` codec does not meet all of these. `Canonical` fails:
  `f32::from_str` accepts `1.0`, `1e0` and `+1` for one, which `Display`
  writes as `1` (`CGGeometry.TwoSpellingsNotCanonical` shows this on a
  codec with two spellings). `FieldRoundTrips` fails for NaNs whose
  payload is not the one `NaN` parses to, because every NaN is written as
  `NaN` (`CGGeometry.NaNPayloadsDoNotRoundTrip`). So for `f32` the
  parse-of-format round trips hold for values without such NaNs, and the
  format-of-parse lemmas describe an idealised codec only.

Where the code's comments disagree with the code, the model follows the code:

- The second and fourth ivar names are `_is<Key>:` and `is<Key>:` in the
  code, with a trailing colon (src/frameworks/foundation/ns_object.rs:199-203
  and 224-228). The comment at line 178, like Apple's key-value coding
  search order, says `_is<Key>` and `is<Key>`. The model keeps the colon.
  `NSObject.ColonCandidatesNeverMatch` proves that these two names never
  match when ivar names contain no colon. In that case the search behaves
  as if only `_<key>` and `<key>` were tried.
- Class `+autorelease` returns nothing
  (src/frameworks/foundation/ns_object.rs:58-60), not the class.
- The code has no nil check in `-retain`. A message to nil never reaches
  the method. The code of `increment_refcount` is not part of this model,
  and the model assumes that it panics on an untracked object, which it
  reports as `Fatal`.

## Model

| member | source | states |
|---|---|---|
| Guest.WrappingAdd | src/frameworks/foundation/ns_object.rs:194 | The sum of two words is the exact sum below 2^32, and the sum minus 2^32 otherwise |
| Guest.Read | src/frameworks/foundation/ns_object.rs:192 | A word read succeeds exactly at a mapped address and gives the stored word |
| Guest.Write | src/frameworks/foundation/ns_object.rs:195 | A word write succeeds exactly at a mapped address; the mapped addresses stay the same, the target holds the value and every other word is unchanged |
| StrOps.StripPrefix | src/frameworks/core_graphics/cg_geometry.rs:44 | Succeeds exactly when the text starts with the prefix, and the prefix followed by the result is the text |
| StrOps.StripSuffix | src/frameworks/core_graphics/cg_geometry.rs:44 | Succeeds exactly when the text ends with the suffix, and the result followed by the suffix is the text |
| StrOps.SplitOnce | src/frameworks/core_graphics/cg_geometry.rs:15 | On success the text is head + separator + tail and the separator does not start anywhere inside the head; it fails only when the separator occurs nowhere |
| StrOps.SplitOnceAt | src/frameworks/core_graphics/cg_geometry.rs:15 | Splitting a + sep + b gives back (a, b) when sep does not start inside a |
| ObjCRuntime.Parent | src/frameworks/foundation/ns_object.rs:111-114 | The superclass step goes only to a registered class registered earlier |
| ObjCRuntime.IsSubclassOf | src/frameworks/foundation/ns_object.rs:111-114 | `class_is_subclass_of`: the second class is the first or reached by the superclass walk; its properties are `SubclassReflexive`, `SubclassTransitive`, `SubclassOrder` and `SubclassAntisymmetric` |
| ObjCRuntime.HasMethod | src/frameworks/foundation/ns_object.rs:62-64 | `class_has_method`: the class or a superclass implements the selector; its properties are `MethodInherited` and `MethodFoundInHierarchy` |
| ObjCRuntime.ParentOfWellFormed | src/frameworks/foundation/ns_object.rs:111-114 | In a table whose superclass links all point to earlier-registered classes, the walk follows every link |
| ObjCRuntime.HasIvar | src/frameworks/foundation/ns_object.rs:191 | An ivar declared by the class itself is the one found, before any superclass's; `IvarInherited`, `IvarNearest` and `IvarFoundInHierarchy` state the rest of the walk |
| ObjCRuntime.LookupSelector | src/frameworks/foundation/ns_object.rs:155-159 | A selector is found exactly when its name is interned, and it is the selector of that name |
| ObjCRuntime.SubclassReflexive | src/frameworks/foundation/ns_object.rs:111-114 | Every class is a subclass of itself |
| ObjCRuntime.SubclassTransitive | src/frameworks/foundation/ns_object.rs:111-114 | The subclass relation is transitive |
| ObjCRuntime.SubclassOrder | src/frameworks/foundation/ns_object.rs:111-114 | A proper superclass is registered, and registered before its subclass |
| ObjCRuntime.SubclassAntisymmetric | src/frameworks/foundation/ns_object.rs:111-114 | Two classes that are each a subclass of the other are the same class |
| ObjCRuntime.MethodInherited | src/frameworks/foundation/ns_object.rs:62-64 | A method a superclass implements is found from every subclass |
| ObjCRuntime.MethodFoundInHierarchy | src/frameworks/foundation/ns_object.rs:62-64 | A method found from a class is implemented by that class or one of its superclasses |
| ObjCRuntime.IvarFoundInHierarchy | src/frameworks/foundation/ns_object.rs:191 | An ivar found from a class is declared by that class or a superclass, with that declaration's offset word |
| ObjCRuntime.IvarInherited | src/frameworks/foundation/ns_object.rs:191 | An ivar a superclass declares is found from every subclass |
| ObjCRuntime.IvarNearest | src/frameworks/foundation/ns_object.rs:191 | The offset word found is that of the nearest class, walking up, that declares the ivar |
| ObjCRuntime.IncrementRefcount | src/frameworks/foundation/ns_object.rs:85 | For a tracked object the count goes up by one and no other entry changes; an untracked object is fatal |
| ObjCRuntime.DecrementRefcount | src/frameworks/foundation/ns_object.rs:90 | "No owners left" is reported exactly when the count was one, and then the table is unchanged; otherwise the count goes down by one and no other entry changes; an untracked object is fatal |
| ObjCRuntime.DeallocObject | src/frameworks/foundation/ns_object.rs:101 | Succeeds exactly for a tracked object, which is then removed and nothing else |
| ObjCRuntime.ReadIsa | src/frameworks/foundation/ns_object.rs:104-106 | `-class` is the word at the object's address; an unmapped object is fatal |
| NSObject.AllocWithZone | src/frameworks/foundation/ns_object.rs:37-40 | The new object has a count of one and its class in its `isa` word; nothing else changes |
| NSObject.ClassRetain | src/frameworks/foundation/ns_object.rs:52-54 | `+retain` returns the class itself |
| NSObject.ClassRelease | src/frameworks/foundation/ns_object.rs:55-57 | `+release` changes no state at all |
| NSObject.ClassAutorelease | src/frameworks/foundation/ns_object.rs:58-60 | `+autorelease` changes no state at all |
| NSObject.Retain | src/frameworks/foundation/ns_object.rs:83-87 | `-retain` returns the receiver and increments only its count; an untracked receiver is fatal and changes nothing |
| NSObject.Release | src/frameworks/foundation/ns_object.rs:88-93 | `-release` decrements, and sends exactly one `dealloc` to the receiver exactly when no owner is left; otherwise it sends nothing |
| NSObject.Autorelease | src/frameworks/foundation/ns_object.rs:94-97 | `-autorelease` sends one `addObject:` with the receiver to `NSAutoreleasePool` and returns the receiver |
| NSObject.Dealloc | src/frameworks/foundation/ns_object.rs:99-102 | `-dealloc` succeeds exactly for a tracked object and removes only its entry |
| NSObject.RetainRun | src/frameworks/foundation/ns_object.rs:83-87 | n retains in a row succeed exactly when n is zero or the object is tracked, keep the set of tracked objects, and fail only with the untracked-object fault |
| NSObject.ReleaseRun | src/frameworks/foundation/ns_object.rs:88-102 | A run of k releases records at most k outcomes, none for an untracked object, and only its last can be the one that sends `dealloc` |
| NSObject.RetainRunAdds | src/frameworks/foundation/ns_object.rs:83-87 | n retains in a row add n to the count and change no other entry |
| NSObject.ReleaseRunFrom | src/frameworks/foundation/ns_object.rs:88-102 | From count c, releases 1 to c-1 send no `dealloc`, release c sends it, and any release after that is fatal |
| NSObject.AllocRetainReleaseBalance | src/frameworks/foundation/ns_object.rs:83-102 | A new object retained n times is deallocated exactly once, on its (n+1)-th release, however many more releases follow |
| NSObject.IsEqual | src/frameworks/foundation/ns_object.rs:120-125 | `-isEqual:` holds exactly when the two hashes are equal |
| NSObject.IsEqualIsEquivalence | src/frameworks/foundation/ns_object.rs:120-125 | `-isEqual:` is reflexive, symmetric and transitive, and equal objects hash equal |
| NSObject.ClassOf | src/frameworks/foundation/ns_object.rs:47-49 | What NSObject's `class` answers: a class object answers itself (`+class`, lines 47-49); an instance answers its `isa` word (`-class`, lines 104-106), and an unmapped instance is fatal |
| NSObject.IsMemberOfClass | src/frameworks/foundation/ns_object.rs:107-110 | `-isMemberOfClass:` answers exactly when the receiver is a class object or mapped, and answers yes exactly when the receiver's class is the given class |
| NSObject.IsKindOfClass | src/frameworks/foundation/ns_object.rs:111-114 | `-isKindOfClass:` answers exactly when the receiver is a class object or mapped, and answers yes exactly when the receiver's class is a subclass of the given class |
| NSObject.MemberImpliesKind | src/frameworks/foundation/ns_object.rs:107-114 | A member of a class is a kind of that class |
| NSObject.KindOfSuperclass | src/frameworks/foundation/ns_object.rs:111-114 | A kind of a class is a kind of each of its superclasses |
| NSObject.InstancesRespondToSelector | src/frameworks/foundation/ns_object.rs:62-64 | `+instancesRespondToSelector:` holds exactly when the class or one of its superclasses implements the selector |
| NSObject.RespondsToSelector | src/frameworks/foundation/ns_object.rs:256-259 | `-respondsToSelector:` answers exactly for a class object or a mapped receiver, with what the receiver's class answers to `+instancesRespondToSelector:` |
| NSObject.RespondsToInherited | src/frameworks/foundation/ns_object.rs:256-259 | An object responds to every selector that a class it is a kind of implements |
| NSObject.ClassObjectAnswersItself | src/frameworks/foundation/ns_object.rs:47-49 | Whatever its `isa` word holds, a class object is a member of exactly itself, a kind of exactly its superclasses, and responds to exactly the instance methods of its hierarchy |
| NSObject.ToAsciiUpper | src/frameworks/foundation/ns_object.rs:157 | Lower-case ASCII letters map to the matching upper-case letter; every other character is kept |
| NSObject.Capitalized | src/frameworks/foundation/ns_object.rs:155-158 | The key with only its first character upper-cased and the rest kept |
| NSObject.IsAscii | src/frameworks/foundation/ns_object.rs:148 | The key is ASCII exactly when every character in it is below 128 |
| NSObject.SetterCandidates | src/frameworks/foundation/ns_object.rs:155-168 | Two names in order: `set`, the key's first character upper-cased, the rest of the key, `:`; then the same name with a leading `_` |
| NSObject.IvarCandidates | src/frameworks/foundation/ns_object.rs:187-228 | Four names in the code's order: `_` + key; `_` + the fourth name; the key; `is`, the key's first character upper-cased, the rest of the key, `:` |
| NSObject.SetterAvailable | src/frameworks/foundation/ns_object.rs:155-170 | An accessor can be used exactly when its name is interned and the class or a superclass implements it |
| NSObject.IvarSlot | src/frameworks/foundation/ns_object.rs:187-191 | An ivar name gives an offset word only when it is interned and the class or a superclass declares it, and then that declaration's word; every interned name declared up the hierarchy gives one |
| NSObject.FirstSetter | src/frameworks/foundation/ns_object.rs:152-174 | The index of the first usable accessor: it is interned and implemented, none before it is usable, and there is none exactly when no candidate is usable |
| NSObject.FirstIvar | src/frameworks/foundation/ns_object.rs:186-236 | The index of the first ivar found: it is found, none before it is, and there is none exactly when no candidate is found |
| NSObject.AccessInstanceVariablesDirectly | src/frameworks/foundation/ns_object.rs:182-183 | A class answers `+accessInstanceVariablesDirectly` exactly when it is in the table (otherwise fatal), and a class with its own override answers that |
| NSObject.AccessDefaultIsTrue | src/frameworks/foundation/ns_object.rs:74-76 | A class none of whose hierarchy overrides `+accessInstanceVariablesDirectly` answers true, NSObject's answer |
| NSObject.AccessNearestOverride | src/frameworks/foundation/ns_object.rs:182-183 | A class answers what the nearest overriding class up its hierarchy says |
| NSObject.IvarAddress | src/frameworks/foundation/ns_object.rs:194 | The ivar's address is the object's address plus the offset modulo 2^32, the plain sum when that does not overflow |
| NSObject.IvarStore | src/frameworks/foundation/ns_object.rs:191-196 | Storing into an ivar writes the value at object + offset and changes no other word; it fails exactly when the offset word or the target is unmapped |
| NSObject.WriteIvar | src/frameworks/foundation/ns_object.rs:191-196 | The imperative store leaves memory as `IvarStore` says, and unchanged when it fails |
| NSObject.SetValueForKey | src/frameworks/foundation/ns_object.rs:145-245 | `-setValue:forKey:` does what `ResolveSetValue` (the search as first matches) picks: one setter message and no memory write; or the one ivar word written and no message; or one `setValue:forUndefinedKey:` message with the value and the key; a fatal step changes nothing |
| NSObject.SetValueForUndefinedKey | src/frameworks/foundation/ns_object.rs:247-254 | NSObject's `-setValue:forUndefinedKey:` is always fatal, naming the receiver, its class and the key |
| NSObject.Hash | src/frameworks/foundation/ns_object.rs:120-122 | `-hash` is the address bits; `IsEqual` and `IsEqualIsEquivalence` tie it to identity |
| NSObject.ResolveSetValue | src/frameworks/foundation/ns_object.rs:145-245 | The search as first matches over the candidate lists; `SetValueForKey` is proved to do what it picks, and the lemmas below state its order |
| NSObject.SetterTriedFirst | src/frameworks/foundation/ns_object.rs:155-164 | `set<Key>:` is called exactly when it is interned and the class implements it |
| NSObject.UnderscoreSetterSecond | src/frameworks/foundation/ns_object.rs:165-174 | `_set<Key>:` is called exactly when `set<Key>:` is not usable and `_set<Key>:` is |
| NSObject.IvarOnlyWhenDirect | src/frameworks/foundation/ns_object.rs:182-236 | An ivar is written only when no accessor is usable and the class allows direct access; it is the first candidate found, with that name's offset word |
| NSObject.IvarWrittenWhenDirect | src/frameworks/foundation/ns_object.rs:182-236 | With no usable accessor and direct access allowed, the first ivar candidate found is the one written |
| NSObject.UndefinedIffNothingMatches | src/frameworks/foundation/ns_object.rs:239-244 | The undefined-key handler is reached exactly when no accessor is usable and either direct access is refused or no ivar candidate is found |
| NSObject.BadKeyFailsFast | src/frameworks/foundation/ns_object.rs:147-158 | A non-ASCII key is fatal before anything else; an empty key is fatal right after the class is read |
| NSObject.ColonCandidates | src/frameworks/foundation/ns_object.rs:199-228 | `_is<Key>:` and `is<Key>:` end in a colon |
| NSObject.ColonCandidatesNeverMatch | src/frameworks/foundation/ns_object.rs:186-236 | With colon-free ivar names, the two colon candidates are never found, and the search finds the same offset word as trying only `_<key>` and then `<key>` |
| NSObject.PerformSelector | src/frameworks/foundation/ns_object.rs:261-277 | A null selector is fatal; otherwise exactly one message with the given arguments is sent to the receiver |
| NSObject.PerformPayload | src/frameworks/foundation/ns_object.rs:293-296 | The `userInfo` dictionary has exactly the keys "SEL" and "arg": the new string object holding the selector's name, and the argument |
| NSObject.UnpackPayload | src/frameworks/foundation/ns_object.rs:311-319 | `timerFireMethod:` unpacks exactly a dictionary with an interned selector name under "SEL"; it gives that selector and whatever object is under "arg", a string included, or nil when there is none; a name that is not interned is fatal |
| NSObject.PayloadRoundTrip | src/frameworks/foundation/ns_object.rs:293-319 | Unpacking the dictionary a main-thread perform packs gives back its selector and its argument |
| NSObject.PerformSelectorOnMainThread | src/frameworks/foundation/ns_object.rs:285-308 | Waiting is fatal, as is a null selector; otherwise one non-repeating zero-interval timer targeting the receiver with `timerFireMethod:` and the packed dictionary is added to the main run loop |
| NSObject.TimerFireMethod | src/frameworks/foundation/ns_object.rs:310-322 | `timerFireMethod:` sends the unpacked selector with the unpacked argument to the receiver once; a malformed dictionary is fatal and sends nothing |
| NSObject.PerformOnMainThreadThenFire | src/frameworks/foundation/ns_object.rs:285-322 | A main-thread perform followed by the firing of its timer sends the same selector with the same argument to the same object, exactly once, and leaves the one added timer on the main run loop |
| CGGeometry.FloatFromRegs | src/frameworks/core_graphics/cg_geometry.rs:32-33 | A float argument is the bit pattern in its one register |
| CGGeometry.PointFromRegs | src/frameworks/core_graphics/cg_geometry.rs:30-35 | x is read from register 0 and y from register 1 |
| CGGeometry.SizeFromRegs | src/frameworks/core_graphics/cg_geometry.rs:67-72 | width is read from register 0 and height from register 1 |
| CGGeometry.RectFromRegs | src/frameworks/core_graphics/cg_geometry.rs:107-112 | origin x, y from registers 0, 1 and size width, height from registers 2, 3 |
| CGGeometry.FloatRegs | src/frameworks/core_graphics/cg_geometry.rs:32-38 | A `CGFloat` takes one register holding its bits, and reading it back gives the float |
| CGGeometry.PointRegs | src/frameworks/core_graphics/cg_geometry.rs:27-40 | A point takes `REG_COUNT` = 2 registers, x then y, and `from_regs` gives the point back |
| CGGeometry.SizeRegs | src/frameworks/core_graphics/cg_geometry.rs:64-77 | A size takes `REG_COUNT` = 2 registers, width then height, and `from_regs` gives the size back |
| CGGeometry.RectRegs | src/frameworks/core_graphics/cg_geometry.rs:104-117 | A rect takes `REG_COUNT` = 4 registers, the point's and the size's counts together: the origin in 0..2, the size in 2..4; `from_regs` gives the rect back |
| CGGeometry.PointRegsFromRegs | src/frameworks/core_graphics/cg_geometry.rs:30-39 | Two registers read as a point and written back are unchanged |
| CGGeometry.SizeRegsFromRegs | src/frameworks/core_graphics/cg_geometry.rs:67-76 | Two registers read as a size and written back are unchanged |
| CGGeometry.RectRegsFromRegs | src/frameworks/core_graphics/cg_geometry.rs:107-116 | Four registers read as a rect and written back are unchanged |
| CGGeometry.Spliced | src/frameworks/core_graphics/cg_geometry.rs:36-39 | A buffer after a write to one slice: same length, the slice holds the values, every other slot unchanged |
| CGGeometry.SplicedTwice | src/frameworks/core_graphics/cg_geometry.rs:113-116 | Writing one slice and then the next one is writing their concatenation |
| CGGeometry.FloatToRegs | src/frameworks/core_graphics/cg_geometry.rs:37-38 | `f32::to_regs` writes the float's one register and nothing else |
| CGGeometry.PointToRegs | src/frameworks/core_graphics/cg_geometry.rs:36-39 | `CGPoint::to_regs` writes x and y into its two slots and leaves every other slot unchanged |
| CGGeometry.SizeToRegs | src/frameworks/core_graphics/cg_geometry.rs:73-76 | `CGSize::to_regs` writes width and height into its two slots and leaves every other slot unchanged |
| CGGeometry.RectToRegs | src/frameworks/core_graphics/cg_geometry.rs:113-116 | `CGRect::to_regs` writes the origin into slots 0..2 and the size into 2..4 and leaves every other slot unchanged |
| CGGeometry.RectRegsRoundTrip | src/frameworks/core_graphics/cg_geometry.rs:104-117 | Writing a rect into a buffer and reading it back gives the rect, and no slot outside its four changes |
| CGGeometry.ParseTuple | src/frameworks/core_graphics/cg_geometry.rs:14-17 | `parse_tuple`; `ParseTupleOf` and `ParseTupleShape` state what it accepts |
| CGGeometry.PointFromStr | src/frameworks/core_graphics/cg_geometry.rs:41-48 | `CGPoint::from_str`; `PointRoundTrip`, `PointParseFormat` and `PointParseRejects` state what it accepts |
| CGGeometry.SizeFromStr | src/frameworks/core_graphics/cg_geometry.rs:78-88 | `CGSize::from_str`; `SizeRoundTrip`, `SizeParseFormat` and `PointParseRejects` state what it accepts |
| CGGeometry.RectFromStr | src/frameworks/core_graphics/cg_geometry.rs:118-134 | `CGRect::from_str`; `RectRoundTrip`, `RectParseFormat` and `RectParseRejects` state what it accepts |
| CGGeometry.PointToString | src/frameworks/core_graphics/cg_geometry.rs:49-54 | `CGPoint`'s `Display`, `{x, y}`; `PointRoundTrip` is its partner |
| CGGeometry.SizeToString | src/frameworks/core_graphics/cg_geometry.rs:89-94 | `CGSize`'s `Display`, `{width, height}`; `SizeRoundTrip` is its partner |
| CGGeometry.RectToString | src/frameworks/core_graphics/cg_geometry.rs:135-140 | `CGRect`'s `Display`; `RectText` spells it out and `RectRoundTrip` is its partner |
| CGGeometry.ParseTupleOf | src/frameworks/core_graphics/cg_geometry.rs:14-17 | `parse_tuple` on a + ", " + b parses a and b when a has no comma |
| CGGeometry.ParseTupleShape | src/frameworks/core_graphics/cg_geometry.rs:14-17 | Text `parse_tuple` accepts is the two fields shown around ", ", for a canonical codec |
| CGGeometry.Unbrace | src/frameworks/core_graphics/cg_geometry.rs:44 | Stripping `{` and then `}` from `{m}` gives m |
| CGGeometry.Unbrace2 | src/frameworks/core_graphics/cg_geometry.rs:121-125 | Stripping `{{` and then `}}` from `{{m}}` gives m |
| CGGeometry.PointRoundTrip | src/frameworks/core_graphics/cg_geometry.rs:41-54 | Parsing a formatted point gives the point back, when each field round-trips |
| CGGeometry.SizeRoundTrip | src/frameworks/core_graphics/cg_geometry.rs:78-94 | Parsing a formatted size gives the size back, when each field round-trips |
| CGGeometry.RectRoundTrip | src/frameworks/core_graphics/cg_geometry.rs:118-140 | Parsing a formatted rect gives the rect back, when each field round-trips |
| CGGeometry.PointParseFormat | src/frameworks/core_graphics/cg_geometry.rs:41-54 | Text a point parses from is exactly that point formatted, for a canonical codec |
| CGGeometry.SizeParseFormat | src/frameworks/core_graphics/cg_geometry.rs:78-94 | Text a size parses from is exactly that size formatted, for a canonical codec |
| CGGeometry.RectParseFormat | src/frameworks/core_graphics/cg_geometry.rs:118-140 | Text a rect parses from is exactly that rect formatted, for a canonical codec |
| CGGeometry.RectText | src/frameworks/core_graphics/cg_geometry.rs:135-139 | A rect's text, `{` + point + `, ` + size + `}`, is `{{x, y}, {w, h}}` |
| CGGeometry.PointParseRejects | src/frameworks/core_graphics/cg_geometry.rs:41-48 | Point and size parsing fail without the leading `{` or trailing `}`, without a ", " inside, or when a field fails to parse |
| CGGeometry.TwoSpellingsNotCanonical | src/frameworks/core_graphics/cg_geometry.rs:41-54 | A codec reading `1.0` and `1` alike and writing `1` parses `{1.0, 1}` to a point formatted as `{1, 1}`, and is not canonical |
| CGGeometry.NaNPayloadsDoNotRoundTrip | src/frameworks/core_graphics/cg_geometry.rs:49-54 | A codec writing two NaN payloads alike cannot round-trip both |
| CGGeometry.RectParseRejects | src/frameworks/core_graphics/cg_geometry.rs:118-128 | Rect parsing fails without the leading `{{` or trailing `}}`, without a "}, {" inside, or when either tuple fails to parse |

## Left out

- `src/frameworks/uikit/ui_view/ui_control/ui_slider.rs` is not part of this model: each of its methods only logs.
- The floating-point content of `CGFloat`: `f32` parsing, the digits `Display` prints, and the `f32`/`u32` bit conversion. The codec is a parameter with stated assumptions, and a register holds the float's bits.
- The code of `env.objc` (`alloc_object`, `dealloc_object`, `class_has_method`, `class_has_ivar`, `lookup_selector`, `increment_refcount`, `decrement_refcount`) and of `msg_send`/`msg!`. Each is given by the contract `NSObject` uses it under. Selector interning is a fixed set.
- `NSTimer`, `NSRunLoop`, `NSDictionary`, `NSString` (`to_rust_string`, `get_static_str`, `from_rust_string`) and the autorelease pool. A dictionary is a map; the main run loop is a list of timers; a key string is given beside the key object; the string object `from_rust_string` makes for a performed selector's name is a parameter; the pool's `addObject:` is a traced message. Pool draining is outside the model.
- The stubs with no behaviour: `performSelector:withObject:afterDelay:` (lines 279-283), `+cancelPreviousPerformRequestsWithTarget:` (70-72), and `conformsToProtocol:` (66-68, 116-118), which always answers true.
- `+alloc`, `+new`, `-copy` and `-mutableCopy` only forward to another method (`allocWithZone:`, `alloc` then `init`, `copyWithZone:`, `mutableCopyWithZone:`). Their result is whatever that method returns, and only `+allocWithZone:` is modelled.
- `-init` returns the receiver. There is nothing to state about it beyond that. `+class` is modelled only inside `NSObject.ClassOf`.
- Logging, the text of panic messages, and `all_class_selectors_as_strings`.
- The `current_thread != 0` guard at line 289: it is about threads, and the model has one.
- NSObject.AllocWithZone: does not model the allocator choosing the address, the zero fill, or the instance size. The caller passes a mapped, untracked, non-nil address.
- The return value of `performSelector:` and its variants: the performed method lies outside the model. Only the message sent is recorded.
- NSObject.Dealloc: guest memory is not released. `dealloc_object` is given the guest memory and frees the object's storage; the model only removes the refcount entry, so a read of the old `isa` word still succeeds afterwards.
- NSObject.IsMemberOfClass, NSObject.IsKindOfClass, NSObject.RespondsToSelector, NSObject.SetValueForKey: the source asks the receiver for its class with a dynamic `class` send (lines 108, 112, 150, 257), which a subclass could override. The model answers with NSObject's own methods through `NSObject.ClassOf`: a class object, one registered in the class table, answers itself (`+class`, lines 47-49), and an instance its `isa` word (`-class`, lines 104-106).
- NSObject.AccessInstanceVariablesDirectly: the answer is sent as a message (line 183). The model takes each class's override as a field of the class table and walks up to the nearest one, with NSObject's `true` at the top, instead of dispatching a method.
- Guest memory is one word per mapped address. Byte addressing, alignment and `SafeRead` are outside the model.
- NSObject.IvarStore: `this + offset` wraps modulo 2^32, as a release build computes it. A debug build would panic on overflow instead.
- NSObject.Retain: a `u32` count that overflows is not modelled; counts are unbounded.
- NSObject.PerformSelectorOnMainThread: the source formats the selector's name for logging before it checks `wait`. A null selector there would fault on that memory read; the model reports `NullSelector`.
