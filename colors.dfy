/** The name-to-colour map `fetch_languages` builds from the language metadata
    list, once the HTTP response has been decoded. */
module Colors {
  import opened Common
  import opened Text

  /** The bar colour of a language the metadata does not name. */
  const DefaultBarColor: string := "#d0d7de"

  /** One entry of the metadata list: its `name` and `color` fields, either of
      which may be missing or `None`. */
  datatype LanguageMeta = LanguageMeta(name: Option<string>, color: Option<string>)

  /** The key an entry is filed under: its stripped name. */
  function KeyOf(e: LanguageMeta): string
  {
    Strip(OrEmpty(e.name))
  }

  /** The colour an entry contributes: its stripped colour, or the default when that
      is blank. */
  function ColorOf(e: LanguageMeta): (c: string)
    ensures c != []
  {
    var color := Strip(OrEmpty(e.color));
    if color == [] then DefaultBarColor else color
  }

  /** One iteration of the loop: an entry with a blank name is skipped; otherwise
      its colour is stored under its name, replacing what was there. */
  function Insert(m: map<string, string>, e: LanguageMeta): map<string, string>
  {
    if KeyOf(e) == [] then m else m[KeyOf(e) := ColorOf(e)]
  }

  /** The map after the loop has run over `entries`, in order. */
  function ColorMap(entries: seq<LanguageMeta>): map<string, string>
  {
    if entries == [] then map[]
    else Insert(ColorMap(entries[..|entries| - 1]), entries[|entries| - 1])
  }

  /** The loop of `fetch_languages`, inserting into the dictionary in place. */
  method BuildColorMap(entries: seq<LanguageMeta>) returns (langColors: map<string, string>)
    ensures langColors == ColorMap(entries)
  {
    langColors := map[];
    for i := 0 to |entries|
      invariant langColors == ColorMap(entries[..i])
    {
      assert entries[..i + 1][..i] == entries[..i];
      var name := Strip(OrEmpty(entries[i].name));
      var color := Strip(OrEmpty(entries[i].color));
      if name != [] {
        langColors := langColors[name := if color != [] then color else DefaultBarColor];
      }
    }
    assert entries[..|entries|] == entries;
  }

  /** Inserting an entry adds its key, when that is not blank, and removes none. */
  lemma InsertKeys(m: map<string, string>, e: LanguageMeta)
    ensures Insert(m, e).Keys == if KeyOf(e) == [] then m.Keys else m.Keys + {KeyOf(e)}
  {
  }

  /** Inserting an entry removes no key. */
  lemma InsertKeeps(m: map<string, string>, e: LanguageMeta, k: string)
    requires k in m
    ensures k in Insert(m, e)
  {
  }

  /** Every non-blank stripped name of an entry ends up as a key. */
  lemma {:induction false} ColorMapHasKey(entries: seq<LanguageMeta>, j: nat)
    requires j < |entries| && KeyOf(entries[j]) != []
    ensures KeyOf(entries[j]) in ColorMap(entries)
  {
    var n := |entries| - 1;
    var prefix := entries[..n];
    assert ColorMap(entries) == Insert(ColorMap(prefix), entries[n]);
    if j < n {
      assert prefix[j] == entries[j];
      ColorMapHasKey(prefix, j);
      InsertKeeps(ColorMap(prefix), entries[n], KeyOf(entries[j]));
    } else {
      InsertKeys(ColorMap(prefix), entries[n]);
    }
  }

  /** Every key comes from some entry's non-blank stripped name. */
  lemma {:induction false} ColorMapKeySource(entries: seq<LanguageMeta>, k: string)
    requires k in ColorMap(entries)
    ensures k != [] && exists j :: 0 <= j < |entries| && KeyOf(entries[j]) == k
  {
    var n := |entries| - 1;
    var prefix := entries[..n];
    assert ColorMap(entries) == Insert(ColorMap(prefix), entries[n]);
    if k in ColorMap(prefix) {
      ColorMapKeySource(prefix, k);
      var j :| 0 <= j < n && KeyOf(prefix[j]) == k;
      assert entries[j] == prefix[j];
    } else {
      assert KeyOf(entries[n]) == k;
    }
  }

  /** A name is a key exactly when some entry has it as its non-blank stripped name. */
  lemma ColorMapKeys(entries: seq<LanguageMeta>, k: string)
    ensures k in ColorMap(entries) <==> k != [] && exists j :: 0 <= j < |entries| && KeyOf(entries[j]) == k
  {
    if k in ColorMap(entries) {
      ColorMapKeySource(entries, k);
    } else if k != [] && exists j :: 0 <= j < |entries| && KeyOf(entries[j]) == k {
      var j :| 0 <= j < |entries| && KeyOf(entries[j]) == k;
      ColorMapHasKey(entries, j);
    }
  }

  /** Every key is a non-blank stripped name, and every colour is non-blank. */
  lemma {:induction false} ColorMapShape(entries: seq<LanguageMeta>)
    ensures forall k :: k in ColorMap(entries) ==> k != [] && Trimmed(k) && ColorMap(entries)[k] != []
  {
    if entries != [] {
      ColorMapShape(entries[..|entries| - 1]);
    }
  }

  /** Inserting an entry filed under another name leaves a key's colour alone. */
  lemma InsertOther(m: map<string, string>, e: LanguageMeta, k: string)
    requires k in m && KeyOf(e) != k
    ensures k in Insert(m, e) && Insert(m, e)[k] == m[k]
  {
  }

  /** For a repeated name the last entry wins: the colour filed under a name is the
      one from the last entry carrying that name. */
  lemma {:induction false} ColorMapLastWins(entries: seq<LanguageMeta>, j: nat)
    requires j < |entries| && KeyOf(entries[j]) != []
    requires forall k :: j < k < |entries| ==> KeyOf(entries[k]) != KeyOf(entries[j])
    ensures KeyOf(entries[j]) in ColorMap(entries)
    ensures ColorMap(entries)[KeyOf(entries[j])] == ColorOf(entries[j])
  {
    var n := |entries| - 1;
    var prefix := entries[..n];
    if j < n {
      assert prefix[j] == entries[j];
      forall k | j < k < |prefix| ensures KeyOf(prefix[k]) != KeyOf(prefix[j]) {
        assert prefix[k] == entries[k];
      }
      ColorMapLastWins(prefix, j);
      InsertOther(ColorMap(prefix), entries[n], KeyOf(entries[j]));
    }
  }
}
