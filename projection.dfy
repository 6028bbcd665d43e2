/**
  * The projection resolver: maps an optional EPSG code to the projection
  * definition written as the header of the GCP file, and the code it stands for.
  * Resolution never fails: every failure falls back to RD New (EPSG:28992).
  */
module Projection {
  import opened Wrappers
  import Strings

  /** The built-in PROJ definition of RD New, used whenever no other definition is obtained. */
  const DefaultDefinition: string :=
    "+proj=sterea +lat_0=52.15616055555555 +lon_0=5.38763888888889 +k=0.9999079 +x_0=155000 +y_0=463000 +ellps=bessel +towgs84=565.417,50.3319,465.552,-0.398957,0.343988,-1.8774,4.0725 +units=m +no_defs"

  /** The EPSG code of RD New. */
  const DefaultCode: int := 28992

  /** The identifier reported with the default definition. */
  const DefaultIdentifier: string := "28992"

  /**
    * The reference-system library as the resolver sees it: either the import
    * failed, or it offers a lookup from an EPSG code to its PROJ definition in
    * legacy PROJ.4 mode, which yields `None` where the library raises.
    */
  datatype Library = Unavailable | Available(lookup: int -> Option<string>)

  /** A projection definition and the identifier of the code that produced it. */
  datatype Resolution = Resolution(definition: string, identifier: string)

  const Default: Resolution := Resolution(DefaultDefinition, DefaultIdentifier)

  /** The lookup was attempted and produced a definition. */
  predicate Resolved(code: Option<int>, lib: Library) {
    code.Some? && lib.Available? && lib.lookup(code.value).Some?
  }

  /**
    * Resolve the projection for `code`: the library's definition and the code
    * written in decimal when the library is present and the lookup succeeds;
    * the RD New default otherwise (no code, no library, or a lookup that raised).
    */
  function Resolve(code: Option<int>, lib: Library): (r: Resolution)
    ensures code.None? ==> r == Default
    ensures Resolved(code, lib) ==>
              r.definition == lib.lookup(code.value).value &&
              r.identifier == Strings.IntToDecimal(code.value) &&
              Strings.ParseInt(r.identifier) == Some(code.value)
    ensures !Resolved(code, lib) ==> r == Default
  {
    if code.None? then
      Default
    else
      match lib
      case Unavailable => Default
      case Available(lookup) =>
        match lookup(code.value)
        case None => Default
        case Some(definition) =>
          Strings.IntToDecimalRoundTrip(code.value);
          Resolution(definition, Strings.IntToDecimal(code.value))
  }

  /** The default identifier is the decimal form of the default code. */
  lemma DefaultIdentifierIsDefaultCode()
    ensures Strings.ParseInt(DefaultIdentifier) == Some(DefaultCode)
    ensures Strings.IntToDecimal(DefaultCode) == DefaultIdentifier
  {
    Strings.IntToDecimalRoundTrip(DefaultCode);
    assert Strings.NatToDecimal(2) == "2";
    assert Strings.NatToDecimal(28) == "28";
    assert Strings.NatToDecimal(289) == "289";
    assert Strings.NatToDecimal(2899) == "2899";
    assert Strings.IntToDecimal(DefaultCode) == DefaultIdentifier;
  }

  /**
    * Whatever happens, the identifier reads back as the EPSG code whose
    * definition was returned: the requested code when the lookup succeeded,
    * 28992 otherwise.
    */
  lemma {:induction false} IdentifierNamesUsedCode(code: Option<int>, lib: Library)
    ensures Strings.ParseInt(Resolve(code, lib).identifier) ==
              Some(if Resolved(code, lib) then code.value else DefaultCode)
  {
    DefaultIdentifierIsDefaultCode();
  }

  /**
    * A missing library and a failed lookup give exactly what an absent code
    * gives; the failure is absorbed, never propagated.
    */
  lemma FailureIsAbsentCode(code: Option<int>, lib: Library, other: Library)
    requires !Resolved(code, lib)
    ensures Resolve(code, lib) == Resolve(None, other)
  {
  }

  /**
    * The default identifier is reported exactly when the default code was
    * asked for and resolved, or the resolution fell back.
    */
  lemma {:induction false} DefaultIdentifierIffFallbackOrDefaultCode(code: Option<int>, lib: Library)
    ensures Resolve(code, lib).identifier == DefaultIdentifier <==>
              (!Resolved(code, lib) || code.value == DefaultCode)
  {
    DefaultIdentifierIsDefaultCode();
    if Resolved(code, lib) && Resolve(code, lib).identifier == DefaultIdentifier {
      Strings.IntToDecimalInjective(code.value, DefaultCode);
    }
  }
}
