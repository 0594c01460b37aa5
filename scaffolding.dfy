/**
  `scaffold_glossary`: a starter glossary built from a feature dictionary.
  Every distinct string among its `variables` and `strings` lists becomes a
  key whose description is a placeholder naming the term. The dictionary is
  the one a caller passes in; a missing list counts as empty, and items that
  are not strings are skipped.
*/
module Scaffolding {
  import opened Strings
  import opened Extraction

  /** An item of a feature list: a string, or a value of some other (hashable) type. */
  datatype Item = StrItem(s: string) | OtherItem

  /** The feature dictionary, by key. */
  type FeatureDict = map<string, seq<Item>>

  /** `features.get(key, [])`. */
  function Get(features: FeatureDict, key: string): (items: seq<Item>)
    ensures key !in features ==> items == []
  {
    if key in features then features[key] else []
  }

  /** The placeholder description written for a term. */
  function Template(term: string): (description: string)
    ensures Contains(description, term)
    ensures |description| == |term| + 28
  {
    ContainsInfix("Describe what `", term, "` represents.");
    "Describe what `" + term + "` represents."
  }

  /** Different terms get different placeholders, so each placeholder names its term. */
  lemma TemplateInjective(a: string, b: string)
    requires Template(a) == Template(b)
    ensures a == b
  {
    var ta, tb := Template(a), Template(b);
    assert ta[15..15 + |a|] == a;
    assert tb[15..15 + |b|] == b;
  }

  /** The distinct strings among some items. */
  function Terms(items: seq<Item>): (terms: set<string>)
    ensures forall t :: t in terms <==> StrItem(t) in items
  {
    set i | 0 <= i < |items| && items[i].StrItem? :: items[i].s
  }

  /**
    The glossary `scaffold_glossary` writes: its keys are exactly the strings
    found in the `variables` and `strings` lists, and each key's description
    is the placeholder for that key.
  */
  function ScaffoldGlossary(features: FeatureDict): (glossary: map<string, string>)
    ensures forall t :: t in glossary <==> StrItem(t) in Get(features, "variables") + Get(features, "strings")
    ensures forall t :: t in glossary ==> glossary[t] == Template(t)
  {
    var terms := Terms(Get(features, "variables") + Get(features, "strings"));
    map t | t in terms :: Template(t)
  }

  /** A list of items has at most as many distinct strings as items. */
  lemma {:induction false} TermsBound(items: seq<Item>)
    ensures |Terms(items)| <= |items|
  {
    if items != [] {
      var n := |items| - 1;
      TermsBound(items[..n]);
      var last := if items[n].StrItem? then {items[n].s} else {};
      assert Terms(items) == Terms(items[..n]) + last by {
        forall t
          ensures t in Terms(items) <==> t in Terms(items[..n]) + last
        {
          assert items == items[..n] + [items[n]];
        }
      }
    }
  }

  /** The scaffold has at most one entry per item of the two lists. */
  lemma ScaffoldSize(features: FeatureDict)
    ensures |ScaffoldGlossary(features)| <= |Get(features, "variables")| + |Get(features, "strings")|
  {
    var items := Get(features, "variables") + Get(features, "strings");
    var glossary := ScaffoldGlossary(features);
    TermsBound(items);
    assert glossary.Keys == Terms(items);
  }

  /** Repeating an item that is already listed leaves the scaffold unchanged. */
  lemma ScaffoldIgnoresRepeats(features: FeatureDict, item: Item)
    requires item in Get(features, "variables") + Get(features, "strings")
    ensures ScaffoldGlossary(features["variables" := Get(features, "variables") + [item]])
      == ScaffoldGlossary(features)
  {
    var more := features["variables" := Get(features, "variables") + [item]];
    assert Get(more, "strings") == Get(features, "strings");
    var a, b := ScaffoldGlossary(more), ScaffoldGlossary(features);
    forall t
      ensures t in a <==> t in b
    {
      assert StrItem(t) in Get(more, "variables") + Get(more, "strings")
        <==> StrItem(t) in Get(features, "variables") + Get(features, "strings");
    }
  }

  /** The items of a list of strings. */
  function StrItems(ss: seq<string>): (items: seq<Item>)
    ensures |items| == |ss|
    ensures forall i :: 0 <= i < |ss| ==> items[i] == StrItem(ss[i])
  {
    seq(|ss|, i requires 0 <= i < |ss| => StrItem(ss[i]))
  }

  /** The dictionary `extract_features_from_code` returns, for its two string lists. */
  function FeatureDictOf(features: Features): FeatureDict {
    map["variables" := StrItems(features.variables), "strings" := StrItems(features.strings)]
  }

  /**
    Scaffolding extracted features: the keys are exactly the names and
    literals found, with no other entry.
  */
  lemma ScaffoldOfExtracted(features: Features)
    ensures var glossary := ScaffoldGlossary(FeatureDictOf(features));
      && (forall t :: t in glossary <==> t in features.variables || t in features.strings)
      && (forall t :: t in glossary ==> glossary[t] == Template(t))
  {
    var d := FeatureDictOf(features);
    var vs, ss := StrItems(features.variables), StrItems(features.strings);
    assert Get(d, "variables") == vs && Get(d, "strings") == ss;
    forall t
      ensures StrItem(t) in vs + ss <==> t in features.variables || t in features.strings
    {
      if StrItem(t) in vs {
        var i :| 0 <= i < |vs| && vs[i] == StrItem(t);
        assert features.variables[i] == t;
      }
      if StrItem(t) in ss {
        var i :| 0 <= i < |ss| && ss[i] == StrItem(t);
        assert features.strings[i] == t;
      }
      if t in features.variables {
        var i :| 0 <= i < |features.variables| && features.variables[i] == t;
        assert vs[i] == StrItem(t);
      }
      if t in features.strings {
        var i :| 0 <= i < |features.strings| && features.strings[i] == t;
        assert ss[i] == StrItem(t);
      }
    }
  }

  /** A dictionary without the two lists scaffolds an empty glossary. */
  lemma ScaffoldOfEmpty()
    ensures ScaffoldGlossary(map[]) == map[]
  {
    var g := ScaffoldGlossary(map[]);
    assert Get(map[], "variables") + Get(map[], "strings") == [];
    assert forall t :: t !in g;
  }
}
