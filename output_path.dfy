/**
  * Derivation of the GCP file's path from the input path when the caller
  * gives none: Python's `xml_file.replace('.xml', '_converted.txt')`, which
  * rewrites every occurrence of `.xml`, not only a trailing one.
  */
module OutputPath {
  import opened Wrappers
  import opened Strings

  const XmlExtension: string := ".xml"
  const ConvertedSuffix: string := "_converted.txt"

  /** The derived path for an input path: every `.xml` replaced by `_converted.txt`. */
  function Derived(xmlFile: string): string {
    ReplaceAll(xmlFile, XmlExtension, ConvertedSuffix)
  }

  /**
    * The path the GCP file is written to: an explicit `outputFile` as given,
    * otherwise derived from `xmlFile`. An input without `.xml` is its own
    * derived path, and no derived path contains `.xml`.
    */
  function OutputFile(xmlFile: string, outputFile: Option<string>): (r: string)
    ensures outputFile.Some? ==> r == outputFile.value
    ensures outputFile.None? && !Occurs(xmlFile, XmlExtension) ==> r == xmlFile
    ensures outputFile.None? ==> !Occurs(r, XmlExtension)
  {
    match outputFile
    case Some(path) => path
    case None =>
      if !Occurs(xmlFile, XmlExtension) then ReplaceAllAbsent(xmlFile, XmlExtension, ConvertedSuffix); Derived(xmlFile)
      else DerivedHasNoXml(xmlFile); Derived(xmlFile)
  }

  /**
    * No `.xml` occurs in a derived path: the replacement text cannot combine
    * with its neighbours into a new `.xml`, and every kept character was
    * kept because no `.xml` started there.
    */
  lemma {:induction false} DerivedHasNoXml(s: string)
    ensures !Occurs(Derived(s), XmlExtension)
    decreases |s|
  {
    var r := Derived(s);
    if |s| < |XmlExtension| {
      assert r == s;
    } else if s[..|XmlExtension|] == XmlExtension {
      var rest := s[|XmlExtension|..];
      DerivedHasNoXml(rest);
      assert r == ConvertedSuffix + Derived(rest);
      forall i | 0 <= i <= |r| ensures !OccursAt(r, XmlExtension, i) {
        NoXmlAfterSuffix(Derived(rest), i);
      }
    } else {
      var rest := s[1..];
      DerivedHasNoXml(rest);
      assert r == [s[0]] + Derived(rest);
      forall i | 0 <= i <= |r| ensures !OccursAt(r, XmlExtension, i) {
        if i == 0 {
          KeptCharacterStartsNoXml(s);
        } else if i + 4 <= |r| {
          assert r[i..i + 4] == Derived(rest)[i - 1..i + 3];
          assert !OccursAt(Derived(rest), XmlExtension, i - 1);
        }
      }
    }
  }

  /**
    * In `ConvertedSuffix + t`, where `t` holds no `.xml`, no `.xml` starts at
    * `i`: not inside the suffix, not across its end (it ends in `txt`), and
    * not inside `t`.
    */
  lemma NoXmlAfterSuffix(t: string, i: int)
    requires !Occurs(t, XmlExtension)
    ensures !OccursAt(ConvertedSuffix + t, XmlExtension, i)
  {
    var p := ConvertedSuffix;
    var r := p + t;
    if 0 <= i && i + 4 <= |r| {
      if i >= |p| {
        assert r[i..i + 4] == t[i - |p|..i - |p| + 4];
        assert !OccursAt(t, XmlExtension, i - |p|);
      } else if i == 10 {
        assert r[i..i + 4][1] == p[11] == 't';
      } else if i < 10 {
        assert p[..10] == "_converted";
        assert r[i..i + 4][0] == p[..10][i];
      } else {
        assert p[11..] == "txt";
        assert r[i..i + 4][0] == p[11..][i - 11];
      }
    }
  }

  /**
    * When `s` does not start with `.xml`, its first character is kept and
    * no `.xml` starts there in the derived path.
    */
  lemma {:induction false} KeptCharacterStartsNoXml(s: string)
    requires |s| >= |XmlExtension| && s[..|XmlExtension|] != XmlExtension
    ensures !OccursAt(Derived(s), XmlExtension, 0)
  {
    var r := Derived(s);
    var rest := Derived(s[1..]);
    assert r == [s[0]] + rest;
    if |r| >= 4 {
      assert r[..4] == [s[0]] + rest[..3];
      PrefixKept(s[1..], 3);
      if '_' !in rest[..3] {
        // no replacement among the next three characters: they are the input's
        assert s[..4] == [s[0]] + s[1..][..3];
      } else {
        assert '_' !in XmlExtension;
      }
    }
  }

  /**
    * If the first `k` characters of a derived path hold no `_` then no
    * replacement happened among them and they are the input's first `k`.
    */
  lemma {:induction false} PrefixKept(t: string, k: nat)
    ensures k <= |Derived(t)| && '_' !in Derived(t)[..k] ==> k <= |t| && t[..k] == Derived(t)[..k]
    decreases k
  {
    var r := Derived(t);
    if k > 0 && k <= |r| {
      if |t| < |XmlExtension| {
        assert r == t;
      } else if t[..|XmlExtension|] == XmlExtension {
        assert r[..k][0] == r[0] == '_';
      } else {
        assert r == [t[0]] + Derived(t[1..]);
        assert Derived(t[1..])[..k - 1] == r[1..k];
        PrefixKept(t[1..], k - 1);
        if '_' !in r[..k] {
          assert '_' !in Derived(t[1..])[..k - 1];
          assert t[..k] == [t[0]] + t[1..][..k - 1];
        }
      }
    }
  }

  /**
    * A non-empty stem without `.xml` does not start an `.xml`, even when
    * `.xml` follows it: the extension cannot overlap itself, since `.` is
    * never at index 1, 2 or 3 of it.
    */
  lemma NoXmlAtStart(stem: string, rest: string)
    requires stem != [] && !Occurs(stem, XmlExtension)
    ensures |stem + XmlExtension + rest| >= |XmlExtension|
    ensures (stem + XmlExtension + rest)[..|XmlExtension|] != XmlExtension
  {
    var s := stem + XmlExtension + rest;
    if |stem| >= 4 {
      assert s[..4] == stem[..4];
      assert !OccursAt(stem, XmlExtension, 0);
    } else {
      assert s[..4][|stem|] == '.';
    }
  }

  /** Dropping the first character of a string without `.xml` leaves none. */
  lemma NoXmlInTail(stem: string)
    requires stem != [] && !Occurs(stem, XmlExtension)
    ensures !Occurs(stem[1..], XmlExtension)
  {
    forall i | OccursAt(stem[1..], XmlExtension, i) ensures OccursAt(stem, XmlExtension, i + 1) {
      OccursInTail(stem, XmlExtension, i);
    }
  }

  /**
    * Replacement goes left to right through every occurrence: a stem
    * without `.xml`, then `.xml`, then anything, becomes the stem, then
    * `_converted.txt`, then the rest with its own occurrences replaced.
    */
  lemma {:induction false} DerivedSplits(stem: string, rest: string)
    requires !Occurs(stem, XmlExtension)
    ensures Derived(stem + XmlExtension + rest) == stem + ConvertedSuffix + Derived(rest)
    decreases |stem|
  {
    var s := stem + XmlExtension + rest;
    if stem == [] {
      assert s == XmlExtension + rest;
      assert s[..|XmlExtension|] == XmlExtension;
      assert s[|XmlExtension|..] == rest;
    } else {
      NoXmlAtStart(stem, rest);
      NoXmlInTail(stem);
      DerivedSplits(stem[1..], rest);
      assert s[1..] == stem[1..] + XmlExtension + rest;
      assert stem == [stem[0]] + stem[1..];
    }
  }

  /**
    * A path whose only `.xml` is the final extension gets that extension
    * swapped for `_converted.txt`.
    */
  lemma DerivedFromStem(stem: string)
    requires !Occurs(stem, XmlExtension)
    ensures Derived(stem + XmlExtension) == stem + ConvertedSuffix
  {
    DerivedSplits(stem, []);
    assert stem + XmlExtension + [] == stem + XmlExtension;
    assert stem + ConvertedSuffix + [] == stem + ConvertedSuffix;
  }

  /** `foo.xml` with no explicit output becomes `foo_converted.txt`. */
  lemma FooExample(xmlFile: string)
    requires xmlFile == "foo.xml"
    ensures OutputFile(xmlFile, None) == "foo_converted.txt"
  {
    var stem := "foo";
    assert !Occurs(stem, XmlExtension);
    DerivedFromStem(stem);
    assert xmlFile == stem + XmlExtension;
    assert stem + ConvertedSuffix == "foo_converted.txt";
  }

  /**
    * Every `.xml` is replaced, not only the last: `a.xml.xml` becomes
    * `a_converted.txt_converted.txt`.
    */
  lemma DoubleExtension(stem: string)
    requires !Occurs(stem, XmlExtension)
    ensures Derived(stem + XmlExtension + XmlExtension) == stem + ConvertedSuffix + ConvertedSuffix
  {
    DerivedSplits(stem, XmlExtension);
    assert !Occurs([], XmlExtension);
    DerivedFromStem([]);
    assert [] + XmlExtension == XmlExtension && [] + ConvertedSuffix == ConvertedSuffix;
  }

  /** Deriving twice is deriving once: a derived path holds no `.xml` to replace. */
  lemma DerivedIdempotent(s: string)
    ensures Derived(Derived(s)) == Derived(s)
  {
    DerivedHasNoXml(s);
    ReplaceAllAbsent(Derived(s), XmlExtension, ConvertedSuffix);
  }
}
