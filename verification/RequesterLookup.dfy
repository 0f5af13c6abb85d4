/** How the hardware finds a requester's context entry: through the root entry of its bus to
    the bus's context table in memory. */
module RequesterLookup {
  import opened Basics
  import opened Bits
  import opened Errors
  import opened ContextCache

  const PAGE: nat := 0x1000
  const ENTRY_BYTES: nat := 16

  /** `VtdRootEntry::from_context_table`. */
  function RootEntry(table: nat): Result<Words> {
    if table % PAGE != 0 then Err(InvalidAddress) else Ok(Words(table % ADDRESS_LIMIT + 1, 0))
  }

  /** The table a present root entry points the hardware at. */
  function Base(root: Words): nat { root.low / PAGE * PAGE % ADDRESS_LIMIT }

  /** A root entry leads the hardware to the table it was made for exactly when the table lies
      below `2^52`. */
  lemma RootEntryLeadsToTable(table: nat)
    ensures RootEntry(table).Ok? <==> table % 0x1000 == 0
    ensures RootEntry(table).Ok? ==>
              var root := RootEntry(table).value;
              Present(root) && Base(root) == table % ADDRESS_LIMIT && Base(root) % 0x1000 == 0
              && (Base(root) == table <==> table < ADDRESS_LIMIT)
              && root.low % 0x1000 == 1 && root.high == 0
  {
    if table % PAGE == 0 {
      var pages := ADDRESS_LIMIT / PAGE;
      var q := table / PAGE;
      DivModUnique(table, ADDRESS_LIMIT, q / pages, PAGE * (q % pages));
      DivModUnique(table % ADDRESS_LIMIT + 1, PAGE, q % pages, 1);
      DivModUnique(table % ADDRESS_LIMIT + 1, 2, PAGE / 2 * (q % pages), 1);
      DivModUnique(table % ADDRESS_LIMIT, PAGE, q % pages, 0);
    }
  }

  /** Where the hardware reads the context entry of a requester id. */
  function EntryAddress(roots: seq<Words>, source: nat): (a: nat)
    requires |roots| == 256 && source < 0x1_0000
  {
    Base(roots[source / 256]) + source % 256 * ENTRY_BYTES
  }

  /** The context entry the hardware acts on, memory holding one entry at each entry address. */
  function Lookup(roots: seq<Words>, memory: map<nat, Words>, source: nat): Option<Words>
    requires |roots| == 256 && source < 0x1_0000
  {
    if !Present(roots[source / 256]) || EntryAddress(roots, source) !in memory then None
    else Some(memory[EntryAddress(roots, source)])
  }

  /** Two requesters read one entry if and only if they have one device and function number
      and their buses share a table. */
  lemma EntriesAreApart(roots: seq<Words>, a: nat, b: nat)
    requires |roots| == 256 && a < 0x1_0000 && b < 0x1_0000
    ensures EntryAddress(roots, a) == EntryAddress(roots, b) <==>
            a % 256 == b % 256 && Base(roots[a / 256]) == Base(roots[b / 256])
  {
    var p, q := roots[a / 256].low / PAGE, roots[b / 256].low / PAGE;
    var pages := ADDRESS_LIMIT / PAGE;
    DivModUnique(p * PAGE, ADDRESS_LIMIT, p / pages, PAGE * (p % pages));
    DivModUnique(q * PAGE, ADDRESS_LIMIT, q / pages, PAGE * (q % pages));
    DivModUnique(EntryAddress(roots, a), PAGE, p % pages, a % 256 * ENTRY_BYTES);
    DivModUnique(EntryAddress(roots, b), PAGE, q % pages, b % 256 * ENTRY_BYTES);
  }

  /** Present buses have tables of their own. */
  predicate OwnTables(roots: seq<Words>)
    requires |roots| == 256
  {
    forall i, j :: 0 <= i < j < 256 && Present(roots[i]) && Present(roots[j]) ==> Base(roots[i]) != Base(roots[j])
  }

  /** Rewriting the entry of `source` does not change what the hardware finds for `other`. */
  predicate KeepsOther(roots: seq<Words>, memory: map<nat, Words>, source: nat, words: Words, other: nat)
    requires |roots| == 256 && source < 0x1_0000 && other < 0x1_0000
  {
    Lookup(roots, memory[EntryAddress(roots, source) := words], other) == Lookup(roots, memory, other)
  }

  /** Rewriting the entry of a routed requester changes what is found for that one only. */
  ghost predicate WritesAreLocal(roots: seq<Words>)
    requires |roots| == 256
  {
    forall memory, source, words, other ::
      0 <= source < 0x1_0000 && 0 <= other < 0x1_0000 && other != source && Present(roots[source / 256]) ==>
        KeepsOther(roots, memory, source, words, other)
  }

  /** A client's entry can be rewritten without rerouting any other client if and only if no two
      present buses share a context table. */
  lemma WritesAreLocalIffOwnTables(roots: seq<Words>)
    requires |roots| == 256
    ensures WritesAreLocal(roots) <==> OwnTables(roots)
  {
    if OwnTables(roots) {
      forall memory: map<nat, Words>, source, words, other
        | 0 <= source < 0x1_0000 && 0 <= other < 0x1_0000 && other != source && Present(roots[source / 256])
        ensures KeepsOther(roots, memory, source, words, other)
      {
        EntriesAreApart(roots, source, other);
        assert source / 256 == other / 256 ==> source % 256 != other % 256;
      }
    } else {
      var i, j :| 0 <= i < j < 256 && Present(roots[i]) && Present(roots[j]) && Base(roots[i]) == Base(roots[j]);
      var source, other := i * 256, j * 256;
      DivModUnique(source, 256, i, 0);
      DivModUnique(other, 256, j, 0);
      EntriesAreApart(roots, source, other);
      var memory: map<nat, Words> := map[];
      assert !KeepsOther(roots, memory, source, DISABLED, other);
    }
  }
}
