/**
 * The ZIP container as the extractor sees it: a file that either opens as an
 * archive or does not, and an archive as a map from part name to part. Each
 * part carries its raw text and the tree that parsing that text yields (None
 * when the text is not well-formed XML). Also the probe over numbered parts
 * (slide1.xml, slide2.xml, ...), which stops at the first missing number.
 */
module Archive {
  import opened Wrappers
  import opened Xml
  import opened Strings

  datatype Entry = Entry(raw: string, tree: Option<Node>)

  datatype Archive = Unreadable | Zip(entries: map<string, Entry>)

  /** The files that exist, each with what ZipArchive::open makes of it. */
  type FileSystem = map<string, Archive>

  /** ZipArchive::open(path): a path that names no file does not open either. */
  function Open(fs: FileSystem, path: string): (a: Archive)
    ensures path !in fs ==> a.Unreadable?
  {
    if path in fs then fs[path] else Unreadable
  }

  /** sprintf(prefix . '%d.xml', i). */
  function PartName(prefix: string, i: nat): string
  {
    prefix + NatToString(i) + ".xml"
  }

  /** Distinct numbers name distinct parts. */
  lemma PartNameInjective(prefix: string, a: nat, b: nat)
    requires PartName(prefix, a) == PartName(prefix, b)
    ensures a == b
  {
    var x, y := PartName(prefix, a), PartName(prefix, b);
    assert NatToString(a) == x[|prefix|..|x| - 4];
    assert NatToString(b) == y[|prefix|..|y| - 4];
    NatToStringInjective(a, b);
  }

  /** The part names probed before number `i`. */
  function Seen(prefix: string, i: nat): set<string>
  {
    set j: nat | 1 <= j < i :: PartName(prefix, j)
  }

  /** Probing number `i` adds a name not probed before. */
  lemma SeenStep(prefix: string, i: nat)
    requires i >= 1
    ensures PartName(prefix, i) !in Seen(prefix, i)
    ensures Seen(prefix, i + 1) == Seen(prefix, i) + {PartName(prefix, i)}
  {
    if PartName(prefix, i) in Seen(prefix, i) {
      var j: nat :| 1 <= j < i && PartName(prefix, j) == PartName(prefix, i);
      PartNameInjective(prefix, j, i);
    }
  }

  /**
   * The parts numbered i, i+1, ... up to (not including) the first number
   * whose part is missing, in increasing order.
   */
  function ProbeFrom(entries: map<string, Entry>, prefix: string, i: nat): (r: seq<Entry>)
    requires i >= 1
    ensures forall k :: i <= k < i + |r| ==> PartName(prefix, k) in entries && r[k - i] == entries[PartName(prefix, k)]
    ensures PartName(prefix, i + |r|) !in entries
    decreases entries.Keys - Seen(prefix, i)
  {
    var name := PartName(prefix, i);
    if name !in entries then []
    else
      SeenStep(prefix, i);
      [entries[name]] + ProbeFrom(entries, prefix, i + 1)
  }

  /** The numbered parts from 1 on, as the extractors' `for ($i = 1; ; $i++)` loops visit them. */
  function Probe(entries: map<string, Entry>, prefix: string): seq<Entry>
  {
    ProbeFrom(entries, prefix, 1)
  }

  /** A present part is visited, and the probe goes on at the next number with fewer names left to try. */
  lemma ProbeStep(entries: map<string, Entry>, prefix: string, i: nat)
    requires i >= 1 && PartName(prefix, i) in entries
    ensures ProbeFrom(entries, prefix, i) == [entries[PartName(prefix, i)]] + ProbeFrom(entries, prefix, i + 1)
    ensures entries.Keys - Seen(prefix, i + 1) < entries.Keys - Seen(prefix, i)
  {
    SeenStep(prefix, i);
  }

  /** Every part of an unbroken run 1..n is visited, whether or not it parses. */
  lemma ProbeCoversRun(entries: map<string, Entry>, prefix: string, n: nat)
    requires forall j: nat :: 1 <= j <= n ==> PartName(prefix, j) in entries
    ensures |Probe(entries, prefix)| >= n
  {
    var r := Probe(entries, prefix);
    assert PartName(prefix, 1 + |r|) !in entries;
  }

  /** Any run of present parts followed by a missing number is exactly what the probe visits. */
  lemma ProbeUnique(entries: map<string, Entry>, prefix: string, ps: seq<Entry>)
    requires forall k :: 1 <= k <= |ps| ==> PartName(prefix, k) in entries && ps[k - 1] == entries[PartName(prefix, k)]
    requires PartName(prefix, |ps| + 1) !in entries
    ensures Probe(entries, prefix) == ps
  {
    var r := Probe(entries, prefix);
    assert PartName(prefix, 1 + |r|) !in entries;
    assert PartName(prefix, |ps| + 1) !in entries;
    assert |r| == |ps|;
    forall k | 0 <= k < |ps| ensures r[k] == ps[k] {
      assert PartName(prefix, 1 + k) in entries && r[(1 + k) - 1] == entries[PartName(prefix, 1 + k)];
      assert ps[(1 + k) - 1] == entries[PartName(prefix, 1 + k)];
    }
  }
}
