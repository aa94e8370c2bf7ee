/**
  The repository an apprentice's reports live in is named after the
  apprentice, with every space replaced by an underscore.
*/
module Repository {

  /** The name with each ' ' turned into '_'; no other character changes. */
  function RepositoryName(apprentice: string): (r: string)
    ensures |r| == |apprentice|
    ensures ' ' !in r
    ensures forall i :: 0 <= i < |r| ==> r[i] == (if apprentice[i] == ' ' then '_' else apprentice[i])
  {
    if apprentice == [] then []
    else [if apprentice[0] == ' ' then '_' else apprentice[0]] + RepositoryName(apprentice[1..])
  }

  /** A name without spaces is its own repository name; renaming twice changes nothing more. */
  lemma RepositoryNameFixedPoints(apprentice: string)
    ensures RepositoryName(apprentice) == apprentice <==> ' ' !in apprentice
    ensures RepositoryName(RepositoryName(apprentice)) == RepositoryName(apprentice)
  {
    if ' ' !in apprentice {
      assert forall i :: 0 <= i < |apprentice| ==> apprentice[i] != ' ';
    }
    assert forall i :: 0 <= i < |apprentice| ==> RepositoryName(apprentice)[i] != ' ';
  }

  lemma RepositoryNameExamples(name: string, tabbed: string)
    requires name == "Jane Doe" && tabbed == "Jane\tDoe"
    ensures RepositoryName(name) == "Jane_Doe"
    ensures RepositoryName(tabbed) == tabbed
  {
    RepositoryNameFixedPoints(tabbed);
  }
}
