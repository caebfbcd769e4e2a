/**
 The name of the JSON snapshot file `main` writes (sbor.py): the host's node
 name with every space replaced by an underscore, between a fixed prefix and
 the ".json" extension.
 */
module Snapshot {
  import Strings

  const FilePrefix: string := "system_info_"
  const FileSuffix: string := ".json"

  /** The node name as it appears in the file name: spaces become
      underscores, every other character is kept in place. */
  function SanitizeNode(node: string): (safe: string)
    ensures |safe| == |node|
    ensures ' ' !in safe
    ensures forall i :: 0 <= i < |node| && node[i] != ' ' ==> safe[i] == node[i]
    ensures forall i :: 0 <= i < |node| && node[i] == ' ' ==> safe[i] == '_'
  {
    Strings.Replace(node, ' ', '_')
  }

  /** The snapshot file name for host `node`. */
  function OutputFileName(node: string): (name: string)
    ensures |name| == |FilePrefix| + |node| + |FileSuffix|
    ensures name[..|FilePrefix|] == FilePrefix
    ensures name[|name| - |FileSuffix|..] == FileSuffix
    ensures name[|FilePrefix|..|name| - |FileSuffix|] == SanitizeNode(node)
    ensures ' ' !in name
  {
    FilePrefix + SanitizeNode(node) + FileSuffix
  }

  /** A node name without spaces appears in the file name unchanged. */
  lemma NodeWithoutSpaces(node: string)
    requires ' ' !in node
    ensures OutputFileName(node) == FilePrefix + node + FileSuffix
  {
    Strings.ReplaceAbsent(node, ' ', '_');
  }

  /** Sanitizing is idempotent: a sanitized name is left as it is. */
  lemma SanitizeIdempotent(node: string)
    ensures SanitizeNode(SanitizeNode(node)) == SanitizeNode(node)
  {
    Strings.ReplaceAbsent(SanitizeNode(node), ' ', '_');
  }

  /** When the node name holds no underscore, the file name determines it:
      turning the underscores of the middle part back into spaces recovers
      the node name. */
  lemma NodeRecoverable(node: string)
    requires '_' !in node
    ensures var name := OutputFileName(node);
      Strings.Replace(name[|FilePrefix|..|name| - |FileSuffix|], '_', ' ') == node
  {
    Strings.ReplaceRoundTrip(node, ' ', '_');
  }

  /** Two node names that differ only in spaces versus underscores share a
      snapshot file: the file name loses that distinction. */
  lemma SpaceAndUnderscoreCollide(a: string, b: string)
    requires |a| == |b|
    requires forall i :: 0 <= i < |a| ==> a[i] == b[i] || (a[i] in " _" && b[i] in " _")
    ensures OutputFileName(a) == OutputFileName(b)
  {
    assert SanitizeNode(a) == SanitizeNode(b);
  }
}
