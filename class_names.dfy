/** Class-name canonicalisation: the reflective name of a class (`a.b.C`,
    as returned by java.lang.Class.getName) is turned into the internal,
    slash-separated form (`a/b/C`) that class files use. The internal form is
    the key of both the hook registry and the class-file cache.
    A name is a sequence of characters, one per byte of the modified-UTF-8
    string the host returns. */
module ClassNames {
  import opened Wrappers

  /** The internal spelling of one character of a class name. */
  function InternalChar(c: char): char
  {
    if c == '.' then '/' else c
  }

  /** The internal form of a class name. */
  function Canonical(s: string): (r: string)
    ensures |r| == |s|
  {
    if s == [] then [] else [InternalChar(s[0])] + Canonical(s[1..])
  }

  /** Every position of the canonical name is the internal spelling of the
      character at the same position: a `.` becomes `/`, everything else is
      kept. */
  lemma {:induction false} CanonicalAt(s: string, i: nat)
    requires i < |s|
    ensures Canonical(s)[i] == InternalChar(s[i])
    ensures s[i] == '.' ==> Canonical(s)[i] == '/'
    ensures s[i] != '.' ==> Canonical(s)[i] == s[i]
  {
    if i > 0 {
      CanonicalAt(s[1..], i - 1);
    }
  }

  /** A canonical name contains no `.`. */
  lemma CanonicalHasNoDots(s: string)
    ensures '.' !in Canonical(s)
  {
  }

  /** A name is already canonical exactly when it contains no `.`; in
      particular canonicalising twice is the same as canonicalising once. */
  lemma CanonicalFixedPoints(s: string)
    ensures Canonical(s) == s <==> '.' !in s
    ensures Canonical(Canonical(s)) == Canonical(s)
  {
    if '.' in s {
      var i :| 0 <= i < |s| && s[i] == '.';
      CanonicalAt(s, i);
    } else {
      forall i | 0 <= i < |s|
        ensures Canonical(s)[i] == s[i]
      {
        CanonicalAt(s, i);
      }
    }
    CanonicalHasNoDots(s);
    var c := Canonical(s);
    forall i | 0 <= i < |c|
      ensures Canonical(c)[i] == c[i]
    {
      CanonicalAt(c, i);
    }
  }

  /** Two spellings give the same registry/cache key exactly when they have
      the same length and differ only by `.` against `/` at some positions:
      the dotted and the slash form of a name share one key. */
  lemma SameKey(a: string, b: string)
    ensures Canonical(a) == Canonical(b) <==>
      |a| == |b| && forall i :: 0 <= i < |a| ==> InternalChar(a[i]) == InternalChar(b[i])
  {
    if |a| == |b| {
      forall i | 0 <= i < |a|
        ensures Canonical(a)[i] == InternalChar(a[i]) && Canonical(b)[i] == InternalChar(b[i])
      {
        CanonicalAt(a, i);
        CanonicalAt(b, i);
      }
    }
  }

  /** The name get_class_name produces from the outcome of the reflective
      Class.getName call: the empty string when any of the JNI steps failed,
      the canonical form of the returned name otherwise. */
  function ClassName(reflected: Option<string>): (name: string)
    ensures reflected.None? ==> name == ""
    ensures reflected.Some? ==> |name| == |reflected.value|
    ensures '.' !in name
  {
    match reflected
    case None => ""
    case Some(s) => CanonicalHasNoDots(s); Canonical(s)
  }

  /** get_class_name: copies the reflected name and rewrites it in place,
      one character at a time, turning each `.` into `/`. */
  method GetClassName(reflected: Option<string>) returns (name: string)
    ensures reflected.None? ==> name == ""
    ensures reflected.Some? ==> name == Canonical(reflected.value)
  {
    if reflected.None? {
      return "";
    }
    ghost var original := reflected.value;
    name := reflected.value;
    var i := 0;
    while i < |name|
      invariant 0 <= i <= |name| == |original|
      invariant forall j :: 0 <= j < i ==> name[j] == InternalChar(original[j])
      invariant forall j :: i <= j < |name| ==> name[j] == original[j]
    {
      if name[i] == '.' {
        name := name[i := '/'];
      }
      i := i + 1;
    }
    forall j | 0 <= j < |name|
      ensures name[j] == Canonical(original)[j]
    {
      CanonicalAt(original, j);
    }
  }
}
