/** What `getNameWithoutExtension` gives for the names `execute` passes it. */
module NameProperties {
  import opened Wrappers
  import opened JavaLang
  import opened ProtocolMojo

  /** For a name ending in ".genavro" the result is the name with the extension cut off. */
  lemma {:induction false} NameRoundTrip(f: string)
    requires EndsWith(f, IdlExtension)
    ensures '.' in f
    ensures NameWithoutExtension(Some(f)) == Some(f[..|f| - |IdlExtension|])
    ensures NameWithoutExtension(Some(f)).value + IdlExtension == f
  {
    var n := |IdlExtension|;
    assert f[|f| - n..] == IdlExtension;
    assert f[|f| - n] == '.';
    var r := NameWithoutExtension(Some(f)).value;
    assert forall i :: |f| - n < i < |f| ==> f[i] == IdlExtension[i - (|f| - n)] != '.';
    assert |r| == |f| - n;
    assert f == f[..|f| - n] + f[|f| - n..];
  }

  /** The canonical example of the documentation comment: "x.genavro" gives "x". */
  lemma NameOfExample()
    ensures NameWithoutExtension(Some("x.genavro")) == Some("x")
  {
    assert "x.genavro"[1..] == IdlExtension;
    NameRoundTrip("x.genavro");
    assert "x.genavro"[..1] == "x";
  }

  /** Two different interface definitions are lowered to two different names. */
  lemma NamesDistinct(f: string, g: string)
    requires EndsWith(f, IdlExtension) && EndsWith(g, IdlExtension) && f != g
    ensures '.' in f && '.' in g && NameWithoutExtension(Some(f)) != NameWithoutExtension(Some(g))
  {
    NameRoundTrip(f);
    NameRoundTrip(g);
  }

  /** `null` is passed through. */
  lemma NullName()
    ensures NameWithoutExtension(None) == None
  {
  }
}
