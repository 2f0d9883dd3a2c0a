/** The two process-wide maps of the hooking library, as values: the hook
    registry (g_hooks: canonical class name to the hooks attached to that
    class, in attachment order) and the class-file cache
    (g_class_file_cache: canonical class name to the parsed class file),
    and what the class-file-load callback does to them. */
module HookRegistry {
  import opened Wrappers
  import opened ClassNames
  import opened ConstantPool

  /** method_info_t: a method's name and descriptor. */
  datatype MethodIdentity = MethodIdentity(name: string, signature: string)

  /** hook_info_t: the hooked method and the address of its native
      replacement. */
  datatype HookInfo = HookInfo(methodInfo: MethodIdentity, nativeHookMethod: nat)

  type Registry = map<string, seq<HookInfo>>
  type Cache = map<string, ClassFile>

  /** ClassFile::load: parses raw class bytes, or fails. */
  type Parser = seq<byte> -> Option<ClassFile>

  /** One delivery of the class-file-load event: the outcome of the
      reflective name lookup on the class being (re)defined, and the class
      bytes the host hands over. */
  datatype LoadEvent = LoadEvent(reflectedName: Option<string>, classData: seq<byte>)

  /** The hooks registered for `name`; an absent key reads as an empty list,
      as indexing an unordered_map default-constructs the value. */
  function HooksOf(hooks: Registry, name: string): seq<HookInfo>
  {
    if name in hooks then hooks[name] else []
  }

  /** Appends one hook record to the list of its class. */
  function Register(hooks: Registry, name: string, hook: HookInfo): Registry
  {
    hooks[name := HooksOf(hooks, name) + [hook]]
  }

  /** The load hook caches a class file only for a non-empty name that has
      hooks registered and is not cached yet. */
  predicate ShouldCache(hooks: Registry, cache: Cache, name: string)
  {
    name != "" && name in hooks && name !in cache
  }

  /** The cache after the load hook ran for class `name` with `classData`. */
  function CacheAfterLoad(hooks: Registry, cache: Cache, name: string, classData: seq<byte>, parse: Parser): Cache
  {
    if !ShouldCache(hooks, cache, name) then cache
    else match parse(classData)
      case None => cache
      case Some(cf) => cache[name := cf]
  }

  /** The cache after a sequence of load events, with the registry fixed. */
  function CacheAfterLoads(hooks: Registry, cache: Cache, events: seq<LoadEvent>, parse: Parser): Cache
    decreases |events|
  {
    if events == [] then cache
    else
      var e := events[0];
      CacheAfterLoads(hooks, CacheAfterLoad(hooks, cache, ClassName(e.reflectedName), e.classData, parse), events[1..], parse)
  }

  /** The invariant both maps keep: every registry key is a non-empty
      canonical name with at least one hook, and only hooked classes are
      cached. */
  predicate Consistent(hooks: Registry, cache: Cache)
  {
    && (forall k :: k in hooks ==> k != "" && '.' !in k && hooks[k] != [])
    && (forall k :: k in cache ==> k in hooks)
  }

  /** Under the invariant, "the registry has an entry for the class" is
      "the class has at least one hook", so the load hook caches exactly the
      non-empty, uncached names with a pending hook. */
  lemma ShouldCacheIsPending(hooks: Registry, cache: Cache, name: string)
    requires Consistent(hooks, cache)
    ensures ShouldCache(hooks, cache, name) <==> name != "" && HooksOf(hooks, name) != [] && name !in cache
  {
  }

  /** The load hook does nothing for an empty name, a class without hooks
      or a class already cached, nor when parsing fails. */
  lemma LoadSkips(hooks: Registry, cache: Cache, name: string, classData: seq<byte>, parse: Parser)
    ensures name == "" ==> CacheAfterLoad(hooks, cache, name, classData, parse) == cache
    ensures name !in hooks ==> CacheAfterLoad(hooks, cache, name, classData, parse) == cache
    ensures name in cache ==> CacheAfterLoad(hooks, cache, name, classData, parse) == cache
    ensures parse(classData).None? ==> CacheAfterLoad(hooks, cache, name, classData, parse) == cache
  {
  }

  /** When the load hook does cache, it adds exactly the key `name`, bound
      to the parsed document, and keeps every other entry. */
  lemma LoadCaches(hooks: Registry, cache: Cache, name: string, classData: seq<byte>, parse: Parser)
    requires ShouldCache(hooks, cache, name) && parse(classData).Some?
    ensures CacheAfterLoad(hooks, cache, name, classData, parse).Keys == cache.Keys + {name}
    ensures CacheAfterLoad(hooks, cache, name, classData, parse)[name] == parse(classData).value
    ensures forall k :: k in cache ==> CacheAfterLoad(hooks, cache, name, classData, parse)[k] == cache[k]
  {
  }

  /** A load event never removes or replaces a cached document. */
  lemma LoadKeepsCached(hooks: Registry, cache: Cache, name: string, classData: seq<byte>, parse: Parser)
    ensures cache.Keys <= CacheAfterLoad(hooks, cache, name, classData, parse).Keys
    ensures forall k :: k in cache ==> CacheAfterLoad(hooks, cache, name, classData, parse)[k] == cache[k]
  {
  }

  /** Cache-once: whatever load events follow, a document cached for a
      class is the one that stays cached, and only hooked classes are
      added. */
  lemma {:induction false} CacheOnce(hooks: Registry, cache: Cache, events: seq<LoadEvent>, parse: Parser)
    ensures cache.Keys <= CacheAfterLoads(hooks, cache, events, parse).Keys <= cache.Keys + hooks.Keys
    ensures forall k :: k in cache ==> CacheAfterLoads(hooks, cache, events, parse)[k] == cache[k]
    decreases |events|
  {
    if events != [] {
      var e := events[0];
      var next := CacheAfterLoad(hooks, cache, ClassName(e.reflectedName), e.classData, parse);
      LoadKeepsCached(hooks, cache, ClassName(e.reflectedName), e.classData, parse);
      CacheOnce(hooks, next, events[1..], parse);
    }
  }

  /** The load hook preserves the invariant of the two maps. */
  lemma LoadPreservesConsistent(hooks: Registry, cache: Cache, name: string, classData: seq<byte>, parse: Parser)
    requires Consistent(hooks, cache)
    ensures Consistent(hooks, CacheAfterLoad(hooks, cache, name, classData, parse))
  {
  }

  /** Registering appends the record at the end of its class's list, keeps
      the earlier records and leaves every other class untouched. */
  lemma RegisterAppends(hooks: Registry, name: string, hook: HookInfo)
    ensures Register(hooks, name, hook).Keys == hooks.Keys + {name}
    ensures |Register(hooks, name, hook)[name]| == |HooksOf(hooks, name)| + 1
    ensures Register(hooks, name, hook)[name][..|HooksOf(hooks, name)|] == HooksOf(hooks, name)
    ensures Register(hooks, name, hook)[name][|HooksOf(hooks, name)|] == hook
    ensures forall k :: k in hooks && k != name ==> Register(hooks, name, hook)[k] == hooks[k]
  {
  }

  /** Registering under a non-empty canonical name preserves the invariant. */
  lemma RegisterPreservesConsistent(hooks: Registry, cache: Cache, name: string, hook: HookInfo)
    requires Consistent(hooks, cache)
    requires name != "" && '.' !in name
    ensures Consistent(Register(hooks, name, hook), cache)
  {
  }
}
