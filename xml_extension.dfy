/**
 * The file-name normalisation of the "get XML file from relative path"
 * generator: a request parameter becomes a file name ending in ".xml", and a
 * parameter that is missing, empty or reaches for a parent directory becomes
 * the empty name.
 */
module XMLExtension {
  import opened Common

  const XML_EXTENSION := ".xml"
  const PARENT := ".."

  /** The parameter is null, empty, or contains "..": the method answers "". */
  predicate Rejected(file: Option<string>)
  {
    file.None? || file.value == [] || Contains(file.value, PARENT)
  }

  /**
   * `addXMLExtension`, as written: a name whose lower-cased form ends in ".xml"
   * is cut at the last CASE-SENSITIVE ".xml" and given ".xml" again; when the
   * name has no lower-case ".xml" at all (as in "page.XML") the cut index is
   * -1 and `substring(0, -1)` throws. Any other name gets ".xml" appended.
   */
  function AddXMLExtension(file: Option<string>): (r: Result<string>)
    ensures Rejected(file) ==> r == Ok("")
    ensures !Rejected(file) && r.Ok? ==> EndsWith(r.value, XML_EXTENSION)
    ensures r.Err? <==> !Rejected(file) && EndsWith(ToLower(file.value), XML_EXTENSION) && !Contains(file.value, XML_EXTENSION)
    ensures r.Err? ==> r.error == IndexOutOfBounds
    ensures !Rejected(file) && !EndsWith(ToLower(file.value), XML_EXTENSION) ==> r == Ok(file.value + XML_EXTENSION)
    ensures !Rejected(file) && EndsWith(ToLower(file.value), XML_EXTENSION) && r.Ok? ==>
      var cut := |r.value| - |XML_EXTENSION|;
      && OccursAt(file.value, XML_EXTENSION, cut)
      && r.value[..cut] == file.value[..cut]
      && forall k :: cut < k <= |file.value| - |XML_EXTENSION| ==> !OccursAt(file.value, XML_EXTENSION, k)
  {
    if Rejected(file) then Ok("")
    else if EndsWith(ToLower(file.value), XML_EXTENSION) then
      var i := LastIndexOf(file.value, XML_EXTENSION);
      if i < 0 then Err(IndexOutOfBounds)
      else
        assert EndsWith(file.value[..i] + XML_EXTENSION, XML_EXTENSION) by {
          var r := file.value[..i] + XML_EXTENSION;
          assert r[|r| - |XML_EXTENSION|..] == XML_EXTENSION;
        }
        assert (file.value[..i] + XML_EXTENSION)[..i] == file.value[..i];
        Ok(file.value[..i] + XML_EXTENSION)
    else
      assert (file.value + XML_EXTENSION)[|file.value|..] == XML_EXTENSION;
      Ok(file.value + XML_EXTENSION)
  }

  /** A name already ending in ".xml" (lower case) is returned unchanged. */
  lemma {:induction false} ExactExtensionKept(file: string)
    requires !Rejected(Some(file)) && EndsWith(file, XML_EXTENSION)
    ensures AddXMLExtension(Some(file)) == Ok(file)
  {
    var n := |file|;
    assert OccursAt(file, XML_EXTENSION, n - 4);
    LowerKeepsExtension(file);
    var i := LastIndexOf(file, XML_EXTENSION);
    assert i == n - 4;
    assert file[..i] + XML_EXTENSION == file;
  }

  /** ".." occurs at `at` exactly when the characters there and after are both '.'. */
  lemma ParentAt(s: string, at: nat)
    requires at + 2 <= |s|
    ensures OccursAt(s, PARENT, at) <==> s[at] == '.' && s[at + 1] == '.'
  {
    assert s[at..at + 2] == [s[at], s[at + 1]];
  }

  /** Two strings without "..", not meeting as '.' + '.', concatenate to a string without "..". */
  lemma {:induction false} NoParentInConcat(a: string, b: string)
    requires !Contains(a, PARENT) && !Contains(b, PARENT)
    requires !(|a| > 0 && |b| > 0 && a[|a| - 1] == '.' && b[0] == '.')
    ensures !Contains(a + b, PARENT)
  {
    var s := a + b;
    forall at | 0 <= at <= |s| - 2 ensures !OccursAt(s, PARENT, at) {
      ParentAt(s, at);
      if at + 2 <= |a| {
        ParentAt(a, at);
        assert s[at] == a[at] && s[at + 1] == a[at + 1];
      } else if at >= |a| {
        ParentAt(b, at - |a|);
        assert s[at] == b[at - |a|] && s[at + 1] == b[at - |a| + 1];
      } else {
        assert s[at] == a[|a| - 1] && s[at + 1] == b[0];
      }
    }
  }

  /** A prefix of a string without ".." has none. */
  lemma NoParentInPrefix(s: string, i: nat)
    requires i <= |s| && !Contains(s, PARENT)
    ensures !Contains(s[..i], PARENT)
  {
    if Contains(s[..i], PARENT) {
      var at :| 0 <= at <= i - 2 && OccursAt(s[..i], PARENT, at);
      assert s[at..at + 2] == s[..i][at..at + 2];
      assert OccursAt(s, PARENT, at);
    }
  }

  /** A string with no '.' directly followed by another holds no "..". */
  lemma NoAdjacentDots(s: string)
    requires forall k :: 0 <= k < |s| - 1 ==> s[k] != '.' || s[k + 1] != '.'
    ensures !Contains(s, PARENT)
  {
    forall at | 0 <= at <= |s| - 2 ensures !OccursAt(s, PARENT, at) {
      assert s[at] != '.' || s[at + 1] != '.';
      assert s[at..at + 2][0] == s[at] && s[at..at + 2][1] == s[at + 1];
    }
  }

  /** ".xml" itself holds no "..". */
  lemma NoParentInExtension()
    ensures !Contains(XML_EXTENSION, PARENT)
  {
    forall at | 0 <= at <= 2 ensures !OccursAt(XML_EXTENSION, PARENT, at) {
      assert XML_EXTENSION[at + 1] != '.';
    }
  }

  /**
   * Applying the method to its own successful result changes nothing, for
   * every accepted name that does not end in '.'.
   */
  lemma {:induction false} AddXMLExtensionIdempotent(file: string)
    requires !Rejected(Some(file)) && AddXMLExtension(Some(file)).Ok?
    requires file[|file| - 1] != '.'
    ensures AddXMLExtension(Some(AddXMLExtension(Some(file)).value)) == AddXMLExtension(Some(file))
  {
    var r := AddXMLExtension(Some(file)).value;
    if EndsWith(ToLower(file), XML_EXTENSION) {
      var i := LastIndexOf(file, XML_EXTENSION);
      assert r == file[..i] + XML_EXTENSION;
      CutAccepted(file, i);
    } else {
      assert r == file + XML_EXTENSION;
      NoParentInExtension();
      NoParentInConcat(file, XML_EXTENSION);
    }
    ExactExtensionKept(r);
  }

  /** Cutting a name without ".." at an occurrence of ".xml" and appending ".xml" yields no "..". */
  lemma CutAccepted(file: string, i: nat)
    requires !Contains(file, PARENT) && OccursAt(file, XML_EXTENSION, i)
    ensures !Contains(file[..i] + XML_EXTENSION, PARENT)
  {
    NoParentInExtension();
    NoParentInPrefix(file, i);
    assert file[i] == '.' by { assert file[i..i + 4][0] == '.'; }
    if i > 0 {
      ParentAt(file, i - 1);
    }
    NoParentInConcat(file[..i], XML_EXTENSION);
  }

  /** A name ending in '.' gains "..xml", which a second application rejects. */
  lemma TrailingDotNotIdempotent()
    ensures AddXMLExtension(Some("a.")) == Ok("a..xml")
    ensures AddXMLExtension(Some("a..xml")) == Ok("")
  {
    NoAdjacentDots("a.");
    assert !EndsWith(ToLower("a."), XML_EXTENSION);
    assert "a." + XML_EXTENSION == "a..xml";
    assert OccursAt("a..xml", PARENT, 1) by { assert "a..xml"[1..3] == PARENT; }
  }

  /** As written, an upper-case extension with no lower-case ".xml" before it makes the method throw. */
  lemma UpperCaseExtensionFails()
    ensures AddXMLExtension(Some("page.XML")) == Err(IndexOutOfBounds)
  {
    var f := "page.XML";
    assert ToLower(f)[4..] == XML_EXTENSION;
    NoAdjacentDots(f);
    MissingCharNotContained(f, XML_EXTENSION, 1);
  }

  /**
   * The evidently intended normalisation: a name whose lower-cased form ends
   * in ".xml" keeps everything before that extension and gets it back in
   * lower case; any other accepted name gets ".xml" appended.
   */
  function AddXMLExtensionFixed(file: Option<string>): (r: string)
    ensures Rejected(file) ==> r == ""
    ensures !Rejected(file) ==> EndsWith(r, XML_EXTENSION)
    ensures !Rejected(file) && EndsWith(ToLower(file.value), XML_EXTENSION) ==>
      |r| == |file.value| && ToLower(r) == ToLower(file.value)
    ensures !Rejected(file) && !EndsWith(ToLower(file.value), XML_EXTENSION) ==> r == file.value + XML_EXTENSION
  {
    if Rejected(file) then ""
    else if EndsWith(ToLower(file.value), XML_EXTENSION) then
      var f := file.value;
      var r := f[..|f| - |XML_EXTENSION|] + XML_EXTENSION;
      assert r[|r| - |XML_EXTENSION|..] == XML_EXTENSION;
      assert ToLower(r) == ToLower(f) by {
        forall k | 0 <= k < |f| ensures ToLower(r)[k] == ToLower(f)[k] {
          if k >= |f| - 4 {
            assert ToLower(f)[|f| - 4..][k - (|f| - 4)] == XML_EXTENSION[k - (|f| - 4)];
          }
        }
      }
      r
    else
      assert (file.value + XML_EXTENSION)[|file.value|..] == XML_EXTENSION;
      file.value + XML_EXTENSION
  }

  /**
   * The intended normalisation agrees with the code exactly on the names that
   * end in a lower-case ".xml" or do not end in ".xml" in any case; on every
   * other accepted name the code throws or cuts the name short.
   */
  lemma {:induction false} FixedAgreesWhereDefined(file: string)
    requires !Rejected(Some(file))
    ensures AddXMLExtension(Some(file)) == Ok(AddXMLExtensionFixed(Some(file)))
        <==> EndsWith(file, XML_EXTENSION) || !EndsWith(ToLower(file), XML_EXTENSION)
  {
    if EndsWith(file, XML_EXTENSION) {
      ExactExtensionKept(file);
      assert file[..|file| - 4] + XML_EXTENSION == file;
    } else if EndsWith(ToLower(file), XML_EXTENSION) {
      var r := AddXMLExtension(Some(file));
      if r.Ok? {
        var cut := |r.value| - |XML_EXTENSION|;
        assert OccursAt(file, XML_EXTENSION, cut);
        assert cut != |file| - |XML_EXTENSION|;
        assert |r.value| < |AddXMLExtensionFixed(Some(file))|;
      }
    }
  }

  /**
   * As written, a name ending in ".XML" that holds a lower-case ".xml"
   * earlier is cut just before that earlier occurrence, losing what follows.
   */
  lemma CutAtEarlierExtension()
    ensures AddXMLExtension(Some("a.xml.XML")) == Ok("a.xml")
  {
    EarlierExtensionAccepted();
    EarlierExtensionOnly();
    CutAtLastExtension("a.xml.XML", 1);
    assert "a.xml.XML"[..1] + XML_EXTENSION == "a.xml";
  }

  /** The intended normalisation keeps that name whole and lower-cases its extension. */
  lemma FixedKeepsEarlierExtension()
    ensures AddXMLExtensionFixed(Some("a.xml.XML")) == "a.xml.xml"
  {
    EarlierExtensionAccepted();
    assert "a.xml.XML"[..5] + XML_EXTENSION == "a.xml.xml";
  }

  /** The code cuts an accepted name at the last lower-case ".xml" it holds. */
  lemma CutAtLastExtension(file: string, cut: nat)
    requires !Rejected(Some(file)) && EndsWith(ToLower(file), XML_EXTENSION)
    requires OccursAt(file, XML_EXTENSION, cut)
    requires forall k :: cut < k <= |file| - |XML_EXTENSION| ==> !OccursAt(file, XML_EXTENSION, k)
    ensures AddXMLExtension(Some(file)) == Ok(file[..cut] + XML_EXTENSION)
  {
    var r := AddXMLExtension(Some(file));
    assert r.Ok?;
    var i := |r.value| - |XML_EXTENSION|;
    assert i == cut;
    assert r.value == r.value[..i] + XML_EXTENSION;
  }

  /** "a.xml.XML" is accepted and its lower-cased form ends in ".xml". */
  lemma EarlierExtensionAccepted()
    ensures !Rejected(Some("a.xml.XML")) && EndsWith(ToLower("a.xml.XML"), XML_EXTENSION)
  {
    var f := "a.xml.XML";
    assert ToLower(f)[5..] == XML_EXTENSION;
    NoAdjacentDots(f);
  }

  /** In "a.xml.XML", a lower-case ".xml" occurs at index 1 and nowhere after. */
  lemma EarlierExtensionOnly()
    ensures OccursAt("a.xml.XML", XML_EXTENSION, 1)
    ensures forall k :: 1 < k <= 5 ==> !OccursAt("a.xml.XML", XML_EXTENSION, k)
  {
    var f := "a.xml.XML";
    assert f[1..5] == XML_EXTENSION;
    forall k | 1 < k <= 5 ensures !OccursAt(f, XML_EXTENSION, k) {
      if k < 5 {
        assert f[k..k + 4][0] == f[k] != '.';
      } else {
        assert f[5..9][1] == 'X';
      }
    }
  }

  /** The intended normalisation accepts "page.XML" and answers "page.xml". */
  lemma FixedNormalisesUpperCase()
    ensures AddXMLExtensionFixed(Some("page.XML")) == "page.xml"
  {
    var f := "page.XML";
    assert ToLower(f)[4..] == XML_EXTENSION;
    NoAdjacentDots(f);
    assert f[..4] + XML_EXTENSION == "page.xml";
  }

  /** Lower-casing keeps a lower-case ".xml" ending. */
  lemma LowerKeepsExtension(s: string)
    requires EndsWith(s, XML_EXTENSION)
    ensures EndsWith(ToLower(s), XML_EXTENSION)
  {
    forall k | |s| - 4 <= k < |s| ensures ToLower(s)[k] == s[k] {
      assert s[k] == s[|s| - 4..][k - (|s| - 4)];
    }
  }

  /** A name whose lower-cased form ends in ".xml" has its '.' four characters from the end. */
  lemma ExtensionDot(s: string)
    requires EndsWith(ToLower(s), XML_EXTENSION)
    ensures s[|s| - 4] == '.'
  {
    assert ToLower(s)[|s| - 4..][0] == '.';
  }

  /** The intended normalisation is idempotent on the same names as the code. */
  lemma {:induction false} AddXMLExtensionFixedIdempotent(file: string)
    requires !Rejected(Some(file)) && file[|file| - 1] != '.'
    ensures AddXMLExtensionFixed(Some(AddXMLExtensionFixed(Some(file)))) == AddXMLExtensionFixed(Some(file))
  {
    var r := AddXMLExtensionFixed(Some(file));
    NoParentInExtension();
    var n := |file|;
    if EndsWith(ToLower(file), XML_EXTENSION) {
      assert r == file[..n - 4] + XML_EXTENSION;
      NoParentInPrefix(file, n - 4);
      ExtensionDot(file);
      if n > 4 && file[n - 5] == '.' {
        assert OccursAt(file, PARENT, n - 5) by { assert file[n - 5..n - 3] == PARENT; }
      }
      NoParentInConcat(file[..n - 4], XML_EXTENSION);
    } else {
      assert r == file + XML_EXTENSION;
      NoParentInConcat(file, XML_EXTENSION);
    }
    assert !Rejected(Some(r));
    LowerKeepsExtension(r);
    assert r[..|r| - 4] + XML_EXTENSION == r;
  }
}
