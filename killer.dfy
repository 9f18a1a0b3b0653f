/**
  The killer classifier: a killer string names a player unless, lower-cased
  and stripped, it begins with one of the English articles "a ", "an " or
  "the " (monsters on the kill list are written "a dragon", "the swamp troll").
  The rule is lexical and is kept as it is, misclassifications included.
 */
module Killer {
  import opened PyStr

  /** `is_player(killer)`. */
  function IsPlayer(killer: string): bool {
    var k := Strip(Lower(killer));
    !(StartsWith(k, "a ") || StartsWith(k, "an ") || StartsWith(k, "the "))
  }

  /** Lower-casing leaves whitespace where it was. */
  lemma LowerKeepsSpace(s: string)
    requires AllSpace(s)
    ensures Lower(s) == s
  {
    forall i | 0 <= i < |s| ensures Lower(s)[i] == s[i] {
      assert IsSpace(s[i]);
    }
  }

  lemma LowerConcat(a: string, b: string)
    ensures Lower(a + b) == Lower(a) + Lower(b)
  {
    forall i | 0 <= i < |a + b| ensures Lower(a + b)[i] == (Lower(a) + Lower(b))[i] {
      if i < |a| { assert (a + b)[i] == a[i]; } else { assert (a + b)[i] == b[i - |a|]; }
    }
  }

  /** Whitespace around a killer's name does not change the verdict. */
  lemma {:induction false} IsPlayerIgnoresPadding(pre: string, killer: string, post: string)
    requires AllSpace(pre) && AllSpace(post)
    ensures IsPlayer(pre + killer + post) == IsPlayer(killer)
  {
    LowerConcat(pre + killer, post);
    LowerConcat(pre, killer);
    LowerKeepsSpace(pre);
    LowerKeepsSpace(post);
    StripPadded(pre, Lower(killer), post);
  }

  /** A killer that needs no stripping is judged on its lower-cased text. */
  lemma IsPlayerUnpadded(killer: string)
    requires IsStripped(Lower(killer))
    ensures IsPlayer(killer) == !(StartsWith(Lower(killer), "a ") || StartsWith(Lower(killer), "an ") || StartsWith(Lower(killer), "the "))
  {
    StripUnique(Lower(killer), 0, Lower(killer));
  }

  // The table the classifier is meant to reproduce, one row per lemma.

  lemma ExampleTheDragon()
    ensures !IsPlayer("The Dragon")
  {
    assert Lower("The Dragon") == "the dragon";
    IsPlayerUnpadded("The Dragon");
    assert "the dragon"[..4] == "the ";
  }

  lemma ExampleADragon()
    ensures !IsPlayer("a dragon")
  {
    assert Lower("a dragon") == "a dragon";
    IsPlayerUnpadded("a dragon");
    assert "a dragon"[..2] == "a ";
  }

  lemma ExampleTheSwampTroll()
    ensures !IsPlayer("the swamp troll")
  {
    assert Lower("the swamp troll") == "the swamp troll";
    IsPlayerUnpadded("the swamp troll");
    assert "the swamp troll"[..4] == "the ";
  }

  lemma ExampleAnOrc()
    ensures !IsPlayer("An orc")
  {
    assert Lower("An orc") == "an orc";
    IsPlayerUnpadded("An orc");
    assert "an orc"[..3] == "an ";
  }

  lemma ExampleAragorn()
    ensures IsPlayer("Aragorn")
  {
    assert Lower("Aragorn") == "aragorn";
    IsPlayerUnpadded("Aragorn");
    assert "aragorn"[1] == 'r' && "aragorn"[2] == 'a' && "aragorn"[3] == 'g';
  }

  /** Stripping comes before the test, so a bare article followed only by
      spaces counts as a player. */
  lemma ExampleBareArticle()
    ensures IsPlayer("A  ")
  {
    assert Lower("A  ") == "a  ";
    StripUnique("a  ", 0, "a");
  }
}
