/** The hook-attachment protocol of the library (JNIHook_Attach) and the
    object holding its two global maps, updated in place by the
    class-file-load callback and by Attach. Every JVMTI/JNI call is an input
    outcome (HostAnswers); the class-file parser is a function parameter. */
module JniHook {
  import opened Wrappers
  import opened ClassNames
  import opened ConstantPool
  import opened HookRegistry

  /** The result codes JNIHook_Attach returns. */
  datatype Status =
    | Ok                  // JNIHOOK_OK
    | ErrJvmtiOperation   // JNIHOOK_ERR_JVMTI_OPERATION
    | ErrJniOperation     // JNIHOOK_ERR_JNI_OPERATION
    | ErrClassfileCache   // JNIHOOK_ERR_CLASSFILE_CACHE
    | ErrPatchClassfile   // JNIHOOK_ERR_PATCH_CLASSFILE

  /** What the host VM answers during one Attach: whether
      GetMethodDeclaringClass succeeded, the outcome of the reflective
      Class.getName lookup, the outcome of GetMethodName, and the
      class-file-load event (if any) that RetransformClasses delivers. */
  datatype HostAnswers = HostAnswers(
    declaringClass: bool,
    reflectedName: Option<string>,
    methodInfo: Option<MethodIdentity>,
    retransform: Option<LoadEvent>)

  /** The result code of Attach together with the two maps afterwards. */
  datatype Outcome = Outcome(status: Status, hooks: Registry, cache: Cache)

  /** Whether Attach gets past identity resolution: the declaring class,
      a non-empty canonical name and the method's name and signature. */
  predicate Resolved(host: HostAnswers)
  {
    host.declaringClass && ClassName(host.reflectedName) != "" && host.methodInfo.Some?
  }

  /** The cache after the retransformation Attach forces, given the
      registry that already holds the new hook. */
  function CacheAfterRetransform(hooks: Registry, cache: Cache, host: HostAnswers, parse: Parser): Cache
  {
    match host.retransform
    case None => cache
    case Some(e) => CacheAfterLoad(hooks, cache, ClassName(e.reflectedName), e.classData, parse)
  }

  /** The effect of one JNIHook_Attach on the registry and the cache. */
  function AfterAttach(hooks: Registry, cache: Cache, host: HostAnswers, nativeHookMethod: nat, parse: Parser): Outcome
  {
    if !host.declaringClass then Outcome(ErrJvmtiOperation, hooks, cache)
    else
      var name := ClassName(host.reflectedName);
      if name == "" then Outcome(ErrJniOperation, hooks, cache)
      else if host.methodInfo.None? then Outcome(ErrJvmtiOperation, hooks, cache)
      else
        var hooks' := Register(hooks, name, HookInfo(host.methodInfo.value, nativeHookMethod));
        var cache' := CacheAfterRetransform(hooks', cache, host, parse);
        var status :=
          if name !in cache' then ErrClassfileCache
          else if ClassIndex(cache'[name].pool, name) == 0 then ErrPatchClassfile
          else Ok;
        Outcome(status, hooks', cache')
  }

  /** Identity resolution fails in three ways, checked in this order, each
      with its own code and without touching either map. */
  lemma AttachResolutionFailures(hooks: Registry, cache: Cache, host: HostAnswers, nativeHookMethod: nat, parse: Parser)
    ensures !host.declaringClass ==>
      AfterAttach(hooks, cache, host, nativeHookMethod, parse) == Outcome(ErrJvmtiOperation, hooks, cache)
    ensures host.declaringClass && ClassName(host.reflectedName) == "" ==>
      AfterAttach(hooks, cache, host, nativeHookMethod, parse) == Outcome(ErrJniOperation, hooks, cache)
    ensures host.declaringClass && ClassName(host.reflectedName) != "" && host.methodInfo.None? ==>
      AfterAttach(hooks, cache, host, nativeHookMethod, parse) == Outcome(ErrJvmtiOperation, hooks, cache)
  {
  }

  /** Once identity is resolved, Attach appends one record
      (name, signature, native hook) at the end of its class's list, keeps
      the earlier records and every other class, whatever code it then
      returns. */
  lemma AttachAppendsRecord(hooks: Registry, cache: Cache, host: HostAnswers, nativeHookMethod: nat, parse: Parser)
    requires Resolved(host)
    ensures var o := AfterAttach(hooks, cache, host, nativeHookMethod, parse);
      var name := ClassName(host.reflectedName);
      && o.hooks.Keys == hooks.Keys + {name}
      && o.hooks[name] == HooksOf(hooks, name) + [HookInfo(host.methodInfo.value, nativeHookMethod)]
      && (forall k :: k in hooks && k != name ==> o.hooks[k] == hooks[k])
  {
  }

  /** Attach reads a copy of the cached document: no cached entry is
      removed or replaced, and the only key it may add is the one the
      retransformation's load event caches. */
  lemma AttachKeepsCache(hooks: Registry, cache: Cache, host: HostAnswers, nativeHookMethod: nat, parse: Parser)
    ensures var o := AfterAttach(hooks, cache, host, nativeHookMethod, parse);
      && cache.Keys <= o.cache.Keys
      && (forall k :: k in cache ==> o.cache[k] == cache[k])
      && (o.cache != cache ==>
            (Resolved(host) && host.retransform.Some?
             && o.cache.Keys == cache.Keys + {ClassName(host.retransform.value.reflectedName)}))
  {
  }

  /** After resolution, the code Attach returns is decided by the cache
      after the retransformation: a miss gives ErrClassfileCache, a cached
      document without a CONSTANT_Class entry for the class gives
      ErrPatchClassfile, and otherwise Attach succeeds. */
  lemma AttachStatus(hooks: Registry, cache: Cache, host: HostAnswers, nativeHookMethod: nat, parse: Parser)
    requires Resolved(host)
    ensures var o := AfterAttach(hooks, cache, host, nativeHookMethod, parse);
      var name := ClassName(host.reflectedName);
      && (o.status == ErrClassfileCache <==> name !in o.cache)
      && (o.status == ErrPatchClassfile <==> name in o.cache && ClassIndex(o.cache[name].pool, name) == 0)
      && (o.status == Ok <==>
            name in o.cache && exists i :: 1 <= i < |o.cache[name].pool| && NamesClass(o.cache[name].pool, i, name))
  {
  }

  /** The registration comes before the retransformation, so a
      retransformation that reports the same class and parses makes the
      cache lookup succeed. */
  lemma RetransformPopulatesCache(hooks: Registry, cache: Cache, host: HostAnswers, nativeHookMethod: nat, parse: Parser, classData: seq<byte>)
    requires Resolved(host)
    requires host.retransform == Some(LoadEvent(host.reflectedName, classData))
    requires parse(classData).Some?
    ensures var o := AfterAttach(hooks, cache, host, nativeHookMethod, parse);
      && ClassName(host.reflectedName) in o.cache
      && o.status != ErrClassfileCache
  {
  }

  /** On success the class is cached, so the load event that the
      redefinition request delivers for the same class changes nothing. */
  lemma RedefineEventKeepsCache(hooks: Registry, cache: Cache, host: HostAnswers, nativeHookMethod: nat, parse: Parser, classData: seq<byte>)
    requires Resolved(host)
    ensures var o := AfterAttach(hooks, cache, host, nativeHookMethod, parse);
      o.status == Ok ==>
        CacheAfterLoad(o.hooks, o.cache, ClassName(host.reflectedName), classData, parse) == o.cache
  {
  }

  /** Attach preserves the invariant of the two maps. */
  lemma AttachPreservesConsistent(hooks: Registry, cache: Cache, host: HostAnswers, nativeHookMethod: nat, parse: Parser)
    requires Consistent(hooks, cache)
    ensures var o := AfterAttach(hooks, cache, host, nativeHookMethod, parse);
      Consistent(o.hooks, o.cache)
  {
  }

  /** The library's global state: g_hooks and g_class_file_cache. */
  class HookState {
    var hooks: Registry
    var cache: Cache

    ghost predicate Valid()
      reads this
    {
      Consistent(hooks, cache)
    }

    constructor ()
      ensures Valid()
      ensures hooks == map[] && cache == map[]
    {
      hooks := map[];
      cache := map[];
    }

    /** JNIHook_ClassFileLoadHook: caches the parsed class file of a
        hooked, not yet cached class. */
    method ClassFileLoadHook(event: LoadEvent, parse: Parser)
      requires Valid()
      modifies this
      ensures Valid()
      ensures hooks == old(hooks)
      ensures cache == CacheAfterLoad(old(hooks), old(cache), ClassName(event.reflectedName), event.classData, parse)
    {
      var className := GetClassName(event.reflectedName);
      if className == "" || className !in hooks || className in cache {
        return;
      }
      var cf := parse(event.classData);
      if cf.None? {
        return;
      }
      LoadPreservesConsistent(hooks, cache, className, event.classData, parse);
      cache := cache[className := cf.value];
    }

    /** JNIHook_Attach: resolves the method's identity, registers the hook,
        forces a retransformation (which may run the load hook), then looks
        the class up in the cache and in its document's constant pool. */
    method Attach(host: HostAnswers, nativeHookMethod: nat, parse: Parser) returns (status: Status)
      requires Valid()
      modifies this
      ensures Valid()
      ensures Outcome(status, hooks, cache) == AfterAttach(old(hooks), old(cache), host, nativeHookMethod, parse)
    {
      if !host.declaringClass {
        return ErrJvmtiOperation;
      }
      var className := GetClassName(host.reflectedName);
      if |className| == 0 {
        return ErrJniOperation;
      }
      if host.methodInfo.None? {
        return ErrJvmtiOperation;
      }
      assert className == ClassName(host.reflectedName);
      var hookInfo := HookInfo(host.methodInfo.value, nativeHookMethod);
      RegisterPreservesConsistent(hooks, cache, className, hookInfo);
      hooks := Register(hooks, className, hookInfo);

      // RetransformClasses may deliver one load event for this class
      if host.retransform.Some? {
        ClassFileLoadHook(host.retransform.value, parse);
      }

      if className !in cache {
        return ErrClassfileCache;
      }
      var cf := cache[className];
      var classIndex := FindClassIndex(cf.pool, className);
      if classIndex == 0 {
        return ErrPatchClassfile;
      }
      return Ok;
    }
  }
}
