/** Conversion of internal (slash-separated) class names to external (dotted) ones. */
module ClassUtil {
  import Text

  /** Every `/` becomes `.`; e.g. `java/lang/Object` becomes `java.lang.Object`. */
  function ExternalClassName(name: string): (r: string)
    ensures |r| == |name|
    ensures forall i :: 0 <= i < |name| ==> r[i] == (if name[i] == '/' then '.' else name[i])
  {
    Text.ReplaceChar(name, '/', '.')
  }

  /** The external name has no slash left. */
  lemma ExternalClassNameHasNoSlash(name: string)
    ensures '/' !in ExternalClassName(name)
  {
  }

  /** Converting an external name again changes nothing. */
  lemma ExternalClassNameIdempotent(name: string)
    ensures ExternalClassName(ExternalClassName(name)) == ExternalClassName(name)
  {
    ExternalClassNameHasNoSlash(name);
    ExternalClassNameIdentity(ExternalClassName(name));
  }

  /** A name without slashes is already external. */
  lemma ExternalClassNameIdentity(name: string)
    requires '/' !in name
    ensures ExternalClassName(name) == name
  {
    var r := ExternalClassName(name);
    assert forall i :: 0 <= i < |name| ==> r[i] == name[i];
  }

  /** The example from the documentation of the conversion. */
  lemma ExternalClassNameExample()
    ensures ExternalClassName("java/lang/Object") == "java.lang.Object"
  {
  }
}
