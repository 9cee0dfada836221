/** Choice of the file extension under which a recorded response body is stored. */
module Mime {
  import opened Wrappers

  /** An HTTP header: each name maps to its list of values. */
  type Header = map<string, seq<string>>

  /** The media-type table: `None` when the media type cannot be parsed, otherwise the
      extensions conventionally associated with it (possibly none). */
  type TypeTable = string -> Option<seq<string>>

  /** The extension used when no Content-Type value gives one. */
  const DefaultExtension: string := ".data"

  /** The Content-Type values of a header, looked up under that exact key. */
  function ContentTypes(header: Header): seq<string>
  {
    if "Content-Type" in header then header["Content-Type"] else []
  }

  /** What the inner loop keeps: scanning from the left with "" as the start, a later
      extension replaces the best so far only when it is strictly longer. */
  function Longest(exts: seq<string>): string
  {
    if exts == [] then ""
    else
      var best := Longest(exts[..|exts| - 1]);
      if |exts[|exts| - 1]| > |best| then exts[|exts| - 1] else best
  }

  /** `exts[k]` is a longest element and no element before it is as long. */
  ghost predicate IsFirstLongest(exts: seq<string>, k: int)
  {
    && 0 <= k < |exts|
    && (forall j :: 0 <= j < |exts| ==> |exts[j]| <= |exts[k]|)
    && (forall j :: 0 <= j < k ==> |exts[j]| < |exts[k]|)
  }

  /** A Content-Type value is usable when its mapping has a non-empty longest extension. */
  predicate Usable(byType: TypeTable, typ: string)
  {
    byType(typ).Some? && Longest(byType(typ).value) != ""
  }

  /** The extension for a list of Content-Type values: the longest extension of the first
      usable value, or the default. */
  function ExtensionOf(contentTypes: seq<string>, byType: TypeTable): string
  {
    if contentTypes == [] then DefaultExtension
    else if Usable(byType, contentTypes[0]) then Longest(byType(contentTypes[0]).value)
    else ExtensionOf(contentTypes[1..], byType)
  }

  /** No extension is longer than the one the loop keeps. */
  lemma {:induction false} LongestIsLongest(exts: seq<string>)
    ensures forall j :: 0 <= j < |exts| ==> |exts[j]| <= |Longest(exts)|
  {
    if exts != [] {
      var n := |exts| - 1;
      LongestIsLongest(exts[..n]);
      assert forall j :: 0 <= j < n ==> exts[..n][j] == exts[j];
    }
  }

  /** The loop keeps the first of the longest extensions. */
  lemma {:induction false} LongestIsFirst(exts: seq<string>, k: int)
    requires IsFirstLongest(exts, k)
    ensures Longest(exts) == exts[k]
  {
    var n := |exts| - 1;
    var init := exts[..n];
    assert forall j :: 0 <= j < n ==> init[j] == exts[j];
    if k < n {
      assert IsFirstLongest(init, k);
      LongestIsFirst(init, k);
    } else if n > 0 {
      LongestIsLongest(init);
      assert |init[0]| < |exts[k]|;
      assert Longest(init) == "" || Longest(init) in init by { LongestInList(init); }
    }
  }

  /** The kept extension is "" or one of the list's elements. */
  lemma {:induction false} LongestInList(exts: seq<string>)
    ensures Longest(exts) == "" || Longest(exts) in exts
  {
    if exts != [] {
      var n := |exts| - 1;
      LongestInList(exts[..n]);
    }
  }

  /** A non-empty list has a first longest element. */
  lemma {:induction false} FirstLongestExists(exts: seq<string>)
    requires exts != []
    ensures exists k :: IsFirstLongest(exts, k)
  {
    var n := |exts| - 1;
    if n == 0 {
      assert IsFirstLongest(exts, 0);
    } else {
      var init := exts[..n];
      assert forall j :: 0 <= j < n ==> init[j] == exts[j];
      FirstLongestExists(init);
      var k :| IsFirstLongest(init, k);
      if |exts[n]| > |exts[k]| {
        assert IsFirstLongest(exts, n);
      } else {
        assert IsFirstLongest(exts, k);
      }
    }
  }

  /** The longest-extension loop picks the first of the longest extensions, and gives ""
      exactly when every extension is empty (in particular for an empty list). */
  lemma LongestIsFirstLongest(exts: seq<string>)
    ensures exts != [] ==> exists k :: IsFirstLongest(exts, k) && Longest(exts) == exts[k]
    ensures Longest(exts) == "" <==> forall j :: 0 <= j < |exts| ==> exts[j] == ""
  {
    LongestIsLongest(exts);
    if exts != [] {
      FirstLongestExists(exts);
      var k :| IsFirstLongest(exts, k);
      LongestIsFirst(exts, k);
    }
  }

  /** With no usable Content-Type value (none at all, or none whose mapping gives a
      non-empty extension) the extension is `.data`. */
  lemma {:induction false} ExtensionOfDefault(contentTypes: seq<string>, byType: TypeTable)
    requires forall j :: 0 <= j < |contentTypes| ==> !Usable(byType, contentTypes[j])
    ensures ExtensionOf(contentTypes, byType) == DefaultExtension
  {
    if contentTypes != [] {
      assert !Usable(byType, contentTypes[0]);
      ExtensionOfDefault(contentTypes[1..], byType);
    }
  }

  /** The extension is the longest extension of the first usable Content-Type value. */
  lemma {:induction false} ExtensionOfFirstUsable(contentTypes: seq<string>, byType: TypeTable, i: nat)
    requires i < |contentTypes| && Usable(byType, contentTypes[i])
    requires forall j :: 0 <= j < i ==> !Usable(byType, contentTypes[j])
    ensures ExtensionOf(contentTypes, byType) == Longest(byType(contentTypes[i]).value)
  {
    if i > 0 {
      assert !Usable(byType, contentTypes[0]);
      ExtensionOfFirstUsable(contentTypes[1..], byType, i - 1);
    }
  }

  /** The extension is `.data` or one of the extensions the table gives for some
      Content-Type value. */
  lemma {:induction false} ExtensionOfIsKnown(contentTypes: seq<string>, byType: TypeTable)
    ensures var r := ExtensionOf(contentTypes, byType);
            || r == DefaultExtension
            || exists i, k :: 0 <= i < |contentTypes| && byType(contentTypes[i]).Some?
                              && 0 <= k < |byType(contentTypes[i]).value|
                              && byType(contentTypes[i]).value[k] == r
  {
    if contentTypes != [] {
      if Usable(byType, contentTypes[0]) {
        var exts := byType(contentTypes[0]).value;
        LongestIsFirstLongest(exts);
        var k :| IsFirstLongest(exts, k) && Longest(exts) == exts[k];
        assert byType(contentTypes[0]).value[k] == ExtensionOf(contentTypes, byType);
      } else {
        ExtensionOfIsKnown(contentTypes[1..], byType);
        var r := ExtensionOf(contentTypes, byType);
        if r != DefaultExtension {
          var i, k :| 0 <= i < |contentTypes[1..]| && byType(contentTypes[1..][i]).Some?
                      && 0 <= k < |byType(contentTypes[1..][i]).value|
                      && byType(contentTypes[1..][i]).value[k] == r;
          assert contentTypes[1..][i] == contentTypes[i + 1];
        }
      }
    }
  }

  /** An HTML example: `text/html; charset=utf-8` mapping to
      `.htm` and `.html` gives `.html`; an unmapped type gives `.data`. */
  lemma ExtensionExamples(byType: TypeTable)
    requires byType("text/html; charset=utf-8") == Some([".htm", ".html"])
    requires byType("application/x-unknown") == Some([])
    ensures ExtensionOf(["text/html; charset=utf-8"], byType) == ".html"
    ensures ExtensionOf(["application/x-unknown"], byType) == DefaultExtension
  {
    assert [".htm", ".html"][..1] == [".htm"];
    assert [".htm"][..0] == [];
  }

  /** The extension for a response header, computed by the two nested loops. */
  method Extension(header: Header, byType: TypeTable) returns (ext: string)
    ensures ext == ExtensionOf(ContentTypes(header), byType)
  {
    var content := ContentTypes(header);
    var i := 0;
    while i < |content|
      invariant 0 <= i <= |content|
      invariant ExtensionOf(content[i..], byType) == ExtensionOf(content, byType)
    {
      var typ := content[i];
      assert content[i..][1..] == content[i + 1..];
      if byType(typ).Some? {
        var exts := byType(typ).value;
        var bestExtension := "";
        var j := 0;
        while j < |exts|
          invariant 0 <= j <= |exts|
          invariant bestExtension == Longest(exts[..j])
        {
          assert exts[..j + 1][..j] == exts[..j];
          if |exts[j]| > |bestExtension| {
            bestExtension := exts[j];
          }
          j := j + 1;
        }
        assert exts[..j] == exts;
        if bestExtension != "" {
          return bestExtension;
        }
      }
      i := i + 1;
    }
    return DefaultExtension;
  }
}
