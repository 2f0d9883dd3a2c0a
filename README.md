# JNIHook: hook registry, class-file cache and attach protocol

JNIHook is a native library that hooks Java methods from inside a running JVM.
It does this through JVMTI (the JVM Tool Interface) and JNI. This project models
the sequential bookkeeping at the centre of `src/jnihook.cpp`:

- **Class-name canonicalisation** (`get_class_name`). The reflective name
  `a.b.C` is rewritten in place into the internal form `a/b/C`. The internal form
  is the key of both global maps. Names are `seq<char>`, one character per byte of
  the modified-UTF-8 string the JVM returns.
- **The two global maps** (`g_hooks`, `g_class_file_cache`). They are the fields
  of the class `JniHook.HookState`. `HookRegistry` gives the same maps as values,
  with the pure functions that say what each operation does to them.
- **The class-file-load callback** (`JNIHook_ClassFileLoadHook`) and its
  cache-once policy. A parsed class file is cached only when all three hold: the
  class name is non-empty, the class has hooks, and nothing is cached for it yet.
- **`JNIHook_Attach`**. It resolves the method's identity; each way this can fail
  has its own error code. It then appends a hook record and forces a
  retransformation, which may run the load callback. Finally it checks the cache
  and scans the cached document's constant pool for the `CONSTANT_Class` entry
  of the class. Section 4.4.1 (CONSTANT_Class_info) and section 4.4.7
  (CONSTANT_Utf8_info) of the Java Virtual Machine Specification define those
  entries.

Every JVMTI/JNI call is an input outcome in `JniHook.HostAnswers`:
- whether `GetMethodDeclaringClass` succeeded;
- the result of the reflective `Class.getName` chain (`FindClass`, `GetMethodID`,
  `CallObjectMethod`, `GetStringUTFChars`), where `None` means one of these steps
  failed;
- the result of `GetMethodName`;
- the load event, if any, that `RetransformClasses` delivers.

The class-file parser `ClassFile::load` lives in `classfile.hpp`, which is not
part of this model. Here it is a function parameter of type
`seq<byte> -> Option<ClassFile>`. `ConstantPool.ClassFile` is the type of
documents in which every `CONSTANT_Class` entry's `name_index` refers to a
`CONSTANT_Utf8` entry. That is what the source's `reinterpret_cast` of the
referenced entry assumes.

## Behaviour of the code

- `JNIHook_Attach` does not patch the target method. The loop after the class-index search only reads each method's name and descriptor for debug output.
- `RedefineClasses` is given an unmodified copy of the cached document, and its result is ignored.
- The cache is never updated after a redefinition.
- `JNIHOOK_OK` is returned once the class index is found.
- The load callback gets its key from the reflective name of `class_being_redefined`, not from its `name` argument or from `GetClassSignature`.
- On a first class load, JVMTI passes a null `class_being_redefined`. The reflective lookup then fails and the key is empty. So the cache can only be filled by retransformation or redefinition events. `LoadEvent` lets an event carry any reflected name. This is a wider abstraction, and every property is stated for all names.
- `RedefineClasses` also delivers a class-file-load event. On the success path the class is already cached, so that event changes nothing (`JniHook.RedefineEventKeepsCache`).

## Model

| member | source | states |
|---|---|---|
| ClassNames.Canonical | src/jnihook.cpp:86-89 | canonicalisation keeps the name's length |
| ClassNames.CanonicalAt | src/jnihook.cpp:86-89 | at every position a `.` becomes `/` and any other character is unchanged |
| ClassNames.CanonicalHasNoDots | src/jnihook.cpp:85-89 | no `.` is left in a canonical name |
| ClassNames.CanonicalFixedPoints | src/jnihook.cpp:85-91 | a name is unchanged by canonicalisation iff it has no `.`, so canonicalisation is idempotent |
| ClassNames.SameKey | src/jnihook.cpp:85-91 | two spellings share a map key iff they have the same length and differ only by `.` against `/`, so the dotted and slash forms of a class share one key |
| ClassNames.ClassName | src/jnihook.cpp:62-91 | a failed reflective lookup gives the empty name; otherwise the name has the reflected name's length and contains no `.` |
| ClassNames.GetClassName | src/jnihook.cpp:62-92 | the in-place rewrite loop returns `""` on failure and otherwise exactly the canonical form of the reflected name |
| ConstantPool.ClassIndexFrom | src/jnihook.cpp:226-242 | a scan from index `from` returns either 0 or the first index at or after `from` whose Class entry's UTF-8 name equals the name |
| ConstantPool.ClassIndex | src/jnihook.cpp:223-245 | the class index is 0 iff no entry from index 1 on names the class; otherwise it is in range, names the class, and no earlier entry from index 1 does; 0 is never a match |
| ConstantPool.FindClassIndex | src/jnihook.cpp:223-242 | the scan with early exit returns exactly the specified class index |
| HookRegistry.ShouldCacheIsPending | src/jnihook.cpp:125-127 | under the invariant, the load hook's registry test is "the class has at least one hook": a name is cached iff it is non-empty, has a pending hook and is not cached |
| HookRegistry.LoadSkips | src/jnihook.cpp:125-134 | the load hook leaves the cache unchanged for an empty name, an unhooked class, an already cached class, or a failed parse |
| HookRegistry.LoadCaches | src/jnihook.cpp:131-136 | on a successful parse of a hooked, uncached class, the hook adds exactly that key with the parsed document and keeps every other entry |
| HookRegistry.LoadKeepsCached | src/jnihook.cpp:125-136 | one load event never removes or replaces a cached document |
| HookRegistry.CacheOnce | src/jnihook.cpp:112-139 | across any sequence of load events, a cached document stays the one cached, and only hooked classes are added |
| HookRegistry.LoadPreservesConsistent | src/jnihook.cpp:123-136 | the load hook keeps the maps' invariant: registry keys are non-empty canonical names with at least one hook, and only hooked classes are cached |
| HookRegistry.RegisterAppends | src/jnihook.cpp:207-210 | registering appends the record at the end of its class's list, keeps earlier records and leaves other classes untouched |
| HookRegistry.RegisterPreservesConsistent | src/jnihook.cpp:197-210 | registering under a non-empty canonical name keeps the maps' invariant |
| JniHook.AttachResolutionFailures | src/jnihook.cpp:193-205 | there are three failures, checked in order, none of which changes either map: declaring class not found gives ErrJvmtiOperation; an empty name gives ErrJniOperation; a failed method-name lookup gives ErrJvmtiOperation |
| JniHook.AttachAppendsRecord | src/jnihook.cpp:207-217 | after resolution, one record (name, signature, native hook) is appended to its class's list whatever code follows, including ErrClassfileCache; other records and classes are kept |
| JniHook.AttachKeepsCache | src/jnihook.cpp:212-219 | Attach never removes or replaces a cached document; the only key it may add is the one the retransformation's load event caches |
| JniHook.AttachStatus | src/jnihook.cpp:215-245 | after resolution: ErrClassfileCache iff the class is not cached; ErrPatchClassfile iff it is cached but no pool entry names it; Ok iff it is cached and some pool entry names it |
| JniHook.RetransformPopulatesCache | src/jnihook.cpp:210-217 | the record is registered before the retransformation, so a retransformation that reports the same class with parseable bytes means no cache miss |
| JniHook.RedefineEventKeepsCache | src/jnihook.cpp:264-271 | when Attach returns Ok the class is cached, so a load event for the same class, such as the one the redefinition request delivers, leaves the cache unchanged |
| JniHook.AttachPreservesConsistent | src/jnihook.cpp:185-245 | Attach keeps the maps' invariant |
| JniHook.HookState.constructor | src/jnihook.cpp:43-44 | both global maps start empty and the invariant holds |
| JniHook.HookState.ClassFileLoadHook | src/jnihook.cpp:112-139 | the callback leaves the registry alone and sets the cache to the cache-once result for the canonical name of the class |
| JniHook.HookState.Attach | src/jnihook.cpp:185-272 | the returned code and both maps afterwards are those AfterAttach gives for the old maps and the host's answers, and the invariant is kept |

## Left out

- JVMTI/JNI foreign calls are outcomes in `HostAnswers`, not modelled calls. This covers `GetClassSignature`, `FindClass`, `GetMethodID`, `CallObjectMethod`, `GetStringUTFChars`, `ReleaseStringUTFChars`, `GetMethodName` and `Deallocate`.
- `RetransformClasses` is modelled only as the optional load event it delivers, whose reflected name may differ from the one Attach saw.
- `JNIHook_Init` and `JNIHook_Shutdown` (src/jnihook.cpp:141-183, 277-287) are left out. They only negotiate capabilities, install or clear the callback, and store or zero the handle bundle, all of which are host interactions.
- `get_class_signature` (src/jnihook.cpp:46-60) is left out because nothing calls it.
- `get_method_info` (src/jnihook.cpp:94-110) is left out as a separate operation. Its outcome is `HostAnswers.methodInfo`.
- The class-file codec in `classfile.hpp` is not part of this model. This covers `ClassFile::load`, `bytes()` and `get_constant_pool_item`. The parser is an opaque parameter, and no byte-level round trip is stated.
- The method loop (src/jnihook.cpp:248-262) is left out. It only writes names and descriptors to standard output and changes no state.
- `RedefineClasses` (src/jnihook.cpp:264-269) is left out as a call. Its result is ignored. The load event it triggers changes neither map, because by then the class is cached; see `JniHook.RedefineEventKeepsCache`.
- `ConstantPool.MethodRecord` and `ClassDoc.methods` give the document the shape of a class file. No operation reads them, because the method loop is left out.
- `JNIHook_Detach` (src/jnihook.cpp:274) is only declared in the source and has no body.
- Concurrency is left out. The maps are unsynchronised and may be touched from JVM callback threads, but the model is sequential.
- Constant-pool entries are reduced to `CONSTANT_Class`, `CONSTANT_Utf8` and "other". The second slot of a long/double entry counts as "other".
- Each result code is a constructor of `JniHook.Status`. Their numeric values are defined in `jnihook.h`, which is not part of this model.
- The native hook address is a `nat`.
