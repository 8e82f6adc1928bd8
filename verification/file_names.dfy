/** The two file-name filters of the traversal: the repository service's caller-supplied
    extension list, matched case-insensitively, and the files service's fixed,
    case-sensitive ".js"/".ts" test. */
module FileNames {
  import opened Text

  /** The extension list the controller falls back to. */
  const DefaultExtensions: seq<string> := [".js", ".ts"]

  /** `HasAllowedFileExtension`: some listed extension is a case-insensitive suffix of the
      name (`EndsWith(ext, StringComparison.OrdinalIgnoreCase)` under `Any`). */
  function HasAllowedFileExtension(name: string, exts: seq<string>): (r: bool)
    ensures r <==> exists i :: 0 <= i < |exts| && EndsWithIgnoreCase(name, exts[i])
    ensures |exts| == 0 ==> !r
  {
    |exts| > 0 && (EndsWithIgnoreCase(name, exts[0]) || HasAllowedFileExtension(name, exts[1..]))
  }

  /** The files service's test: the name ends with ".js" or ".ts", case-sensitively. */
  predicate IsJsOrTs(name: string)
  {
    EndsWith(name, ".js") || EndsWith(name, ".ts")
  }

  /** The filter a traversal applies to file names. */
  datatype Filter = JsOrTs | AllowedExtensions(exts: seq<string>)

  predicate Accepts(f: Filter, name: string)
  {
    match f
    case JsOrTs => IsJsOrTs(name)
    case AllowedExtensions(exts) => HasAllowedFileExtension(name, exts)
  }

  /** An empty extension in the list admits every file name. */
  lemma EmptyExtensionMatchesEverything(name: string, exts: seq<string>)
    requires "" in exts
    ensures HasAllowedFileExtension(name, exts)
  {
    var i :| 0 <= i < |exts| && exts[i] == "";
    assert EndsWithIgnoreCase(name, exts[i]);
  }

  /** The order and repetition of the extensions do not matter: only the set of
      extensions decides. */
  lemma {:induction false} OnlyTheExtensionSetMatters(name: string, a: seq<string>, b: seq<string>)
    requires forall x :: x in a <==> x in b
    ensures HasAllowedFileExtension(name, a) == HasAllowedFileExtension(name, b)
  {
    if HasAllowedFileExtension(name, a) {
      var i :| 0 <= i < |a| && EndsWithIgnoreCase(name, a[i]);
      assert a[i] in b;
      var j :| 0 <= j < |b| && b[j] == a[i];
    }
    if HasAllowedFileExtension(name, b) {
      var i :| 0 <= i < |b| && EndsWithIgnoreCase(name, b[i]);
      assert b[i] in a;
      var j :| 0 <= j < |a| && a[j] == b[i];
    }
  }

  lemma LowerIdentityOnSlice(name: string, k: int)
    requires Lower(name) == name
    requires 0 <= k <= |name|
    ensures Lower(name[k..]) == name[k..]
  {
    forall i | 0 <= i < |name| - k
      ensures Lower(name[k..])[i] == name[k..][i]
    {
      assert Lower(name)[k + i] == name[k + i];
    }
  }

  /** Whatever the files service accepts, the repository service accepts under the
      default extensions. */
  lemma JsOrTsIsAllowedByDefault(name: string)
    requires IsJsOrTs(name)
    ensures HasAllowedFileExtension(name, DefaultExtensions)
  {
    if EndsWith(name, ".js") {
      EndsWithImpliesIgnoreCase(name, ".js");
      assert EndsWithIgnoreCase(name, DefaultExtensions[0]);
    } else {
      EndsWithImpliesIgnoreCase(name, ".ts");
      assert EndsWithIgnoreCase(name, DefaultExtensions[1]);
    }
  }

  lemma DefaultsAreLowerCase(i: int)
    requires 0 <= i < |DefaultExtensions|
    ensures |DefaultExtensions[i]| == 3
    ensures Lower(DefaultExtensions[i]) == DefaultExtensions[i]
  {
    var e := DefaultExtensions[i];
    assert Lower(e)[0] == e[0] && Lower(e)[1] == e[1] && Lower(e)[2] == e[2];
  }

  /** Without capitals on either side, a case-insensitive suffix is a plain suffix. */
  lemma LowerCaseSuffix(name: string, e: string)
    requires Lower(name) == name && Lower(e) == e
    requires EndsWithIgnoreCase(name, e)
    ensures EndsWith(name, e)
  {
    LowerIdentityOnSlice(name, |name| - |e|);
  }

  /** Without capitals in the name, the default extensions admit only ".js" and ".ts". */
  lemma AllowedByDefaultIsJsOrTs(name: string)
    requires Lower(name) == name
    requires HasAllowedFileExtension(name, DefaultExtensions)
    ensures IsJsOrTs(name)
  {
    DefaultsAreLowerCase(0);
    DefaultsAreLowerCase(1);
    if EndsWithIgnoreCase(name, ".js") {
      LowerCaseSuffix(name, ".js");
    } else {
      assert EndsWithIgnoreCase(name, ".ts");
      LowerCaseSuffix(name, ".ts");
    }
  }

  /** On names without capitals the two filters agree exactly. */
  lemma FiltersAgreeOnLowerCaseNames(name: string)
    requires Lower(name) == name
    ensures IsJsOrTs(name) <==> HasAllowedFileExtension(name, DefaultExtensions)
  {
    if IsJsOrTs(name) {
      JsOrTsIsAllowedByDefault(name);
    } else if HasAllowedFileExtension(name, DefaultExtensions) {
      AllowedByDefaultIsJsOrTs(name);
    }
  }

  /** The filters differ on capitals: "APP.JS" passes the repository service's default
      filter but not the files service's. */
  lemma FiltersDifferOnCapitals()
    ensures HasAllowedFileExtension("APP.JS", DefaultExtensions)
    ensures !IsJsOrTs("APP.JS")
  {
    assert Lower("APP.JS"[3..]) == ".js" by {
      assert "APP.JS"[3..] == ".JS";
    }
    assert EndsWithIgnoreCase("APP.JS", DefaultExtensions[0]);
    assert "APP.JS"[3..] == ".JS";
  }
}
