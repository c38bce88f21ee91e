/** The reversible migration between two embedding widths, and the readiness guard over its result. */
module EmbeddingMigration {
  import opened Options
  import opened Decimals

  type Row(==)
  type Vector(==)

  /** The columns and the index the migration speaks of, and everything else beside them. */
  datatype Name =
    | Embedding            // embedding
    | EmbeddingLegacy1024  // embedding_legacy_1024
    | Embedding2048        // embedding_2048
    | EmbeddingFingerprint // embedding_fingerprint
    | IngestionAttempts    // ingestion_attempts
    | IngestionFailure     // ingestion_failure
    | OldIndex             // ix_chunks_embedding_hnsw
    | Other(string)

  /** A pgvector type as the catalog prints it. */
  function VectorType(n: nat): string {
    "vector(" + Decimal(n) + ")"
  }

  const NARROW := "vector(1024)"
  const WIDE := "vector(2048)"

  // SQL's three-valued logic: a comparison with NULL is neither true nor false, and only what is
  // true takes a branch.
  datatype Truth = True | False | Unknown {
    function And(that: Truth): Truth {
      if this == False || that == False then False
      else if this == True && that == True then True else Unknown
    }

    function Or(that: Truth): Truth {
      if this == True || that == True then True
      else if this == False && that == False then False else Unknown
    }
  }

  function Eq(a: Option<string>, b: string): Truth {
    if a.None? then Unknown else if a.value == b then True else False
  }

  function NotEq(a: Option<string>, b: string): Truth {
    if a.None? then Unknown else if a.value != b then True else False
  }

  function IsNull(a: Option<string>): Truth {
    if a.None? then True else False
  }

  function IsNotNull(a: Option<string>): Truth {
    if a.None? then False else True
  }

  /** A column and its cells that are not NULL. */
  datatype Column = Column(kind: string, cells: map<Row, Vector>)

  /**
   * The columns of the chunks by name, the database's indexes, the archive of detached vectors if
   * the table exists, and the names of the documents' columns.
   */
  datatype Catalog = Catalog(
    chunks: map<Name, Column>, indexes: set<Name>, archive: Option<map<Row, Vector>>, documents: set<Name>)
  {
    function Kind(name: Name): Option<string> {
      if name in chunks then Some(chunks[name].kind) else None
    }

    function Cells(name: Name): map<Row, Vector> {
      if name in chunks then chunks[name].cells else map[]
    }

    /** The 1,024-float vectors: set aside, or in the active column of the old schema. */
    function Old(): map<Row, Vector> {
      if EmbeddingLegacy1024 in chunks then Cells(EmbeddingLegacy1024) else Cells(Embedding)
    }

    /** The 2,048-float vectors: active in the new schema, parked or absent in the old one. */
    function New(): map<Row, Vector> {
      if Embedding2048 in chunks then Cells(Embedding2048) else if EmbeddingLegacy1024 in chunks then Cells(Embedding) else map[]
    }
  }

  const VECTORS := {Embedding, EmbeddingLegacy1024, Embedding2048}
  const INGESTION := {IngestionAttempts, IngestionFailure}

  // What the migration is for, by what it leaves behind.

  /** The columns an upgrade starts from: the old ones, or the new ones with the active column missing or made. */
  ghost predicate Upgradable(active: Option<string>, legacy: Option<string>, parked: Option<string>) {
    || (active == Some(NARROW) && legacy == None && (parked == None || parked == Some(WIDE)))
    || (active == None && legacy == Some(NARROW) && (parked == None || parked == Some(WIDE)))
    || (active == Some(WIDE) && legacy == Some(NARROW) && parked == None)
  }

  ghost predicate CanUpgrade(s: Catalog) {
    && Upgradable(s.Kind(Embedding), s.Kind(EmbeddingLegacy1024), s.Kind(Embedding2048))
    && EmbeddingFingerprint !in s.chunks && s.documents !! INGESTION
  }

  /** The schema after an upgrade, with the old and new vectors where it keeps them. */
  ghost function Upgraded(s: Catalog): Catalog {
    Catalog(
      (s.chunks - VECTORS + map[EmbeddingLegacy1024 := Column(NARROW, s.Old()), Embedding := Column(WIDE, s.New())])
        [EmbeddingFingerprint := Column("character varying(64)", map[])],
      s.indexes - {OldIndex},
      if s.archive.None? then Some(map[]) else s.archive,
      s.documents + INGESTION)
  }

  ghost predicate CanDowngrade(s: Catalog) {
    && s.Kind(Embedding) == Some(WIDE) && s.Kind(EmbeddingLegacy1024) == Some(NARROW) && s.Kind(Embedding2048) == None
    && EmbeddingFingerprint in s.chunks && INGESTION <= s.documents
    && s.archive == Some(map[])
  }

  ghost function Downgraded(s: Catalog): Catalog {
    Catalog(
      s.chunks - {EmbeddingFingerprint} - VECTORS
      + map[Embedding := Column(NARROW, s.Old()), Embedding2048 := Column(WIDE, s.New())],
      s.indexes + {OldIndex}, None, s.documents - INGESTION)
  }

  /** A database session; DDL statements return whether they succeed. */
  class Database {
    var chunks: map<Name, Column>
    var indexes: set<Name>
    var archive: Option<map<Row, Vector>>
    var documents: set<Name>

    ghost function State(): Catalog
      reads this
    {
      Catalog(chunks, indexes, archive, documents)
    }

    function Kind(name: Name): Option<string>
      reads this
    {
      if name in chunks then Some(chunks[name].kind) else None
    }

    method RenameColumn(from: Name, to: Name) returns (ok: bool)
      modifies this`chunks
      ensures ok <==> from in old(chunks) && to !in old(chunks)
      ensures chunks == if ok then old(chunks) - {from} + map[to := old(chunks)[from]] else old(chunks)
    {
      ok := from in chunks && to !in chunks;
      if ok {
        chunks := chunks - {from} + map[to := chunks[from]];
      }
    }

    method AddColumn(name: Name, kind: string) returns (ok: bool)
      modifies this`chunks
      ensures ok <==> name !in old(chunks)
      ensures chunks == if ok then old(chunks)[name := Column(kind, map[])] else old(chunks)
    {
      ok := name !in chunks;
      if ok {
        chunks := chunks[name := Column(kind, map[])];
      }
    }

    method DropColumn(name: Name) returns (ok: bool)
      modifies this`chunks
      ensures ok <==> name in old(chunks)
      ensures chunks == old(chunks) - {name}
    {
      ok := name in chunks;
      chunks := chunks - {name};
    }

    /** An HNSW index, which pgvector builds over vectors of at most 2,000 floats. */
    method CreateVectorIndex(name: Name, column: Name) returns (ok: bool)
      modifies this`indexes
      ensures ok <==> name !in old(indexes) && Dimension(Kind(column)).Some? && Dimension(Kind(column)).value <= 2000
      ensures indexes == if ok then old(indexes) + {name} else old(indexes)
    {
      var width := Dimension(Kind(column));
      ok := name !in indexes && width.Some? && width.value <= 2000;
      if ok {
        indexes := indexes + {name};
      }
    }

    /** The first `DO` block: `active` and `legacy` follow the columns as they are renamed. */
    method UpgradeColumns() returns (ok: bool)
      modifies this`chunks
      ensures ok <==> Upgradable(old(Kind(Embedding)), old(Kind(EmbeddingLegacy1024)), old(Kind(Embedding2048)))
      ensures ok ==> chunks == old(chunks) - VECTORS + map[EmbeddingLegacy1024 := Column(NARROW, old(State()).Old()),
                                                           Embedding := Column(WIDE, old(State()).New())]
    {
      var active, legacy, parked := Kind(Embedding), Kind(EmbeddingLegacy1024), Kind(Embedding2048);
      if Eq(active, NARROW).And(IsNull(legacy)) == True {
        var renamed := RenameColumn(Embedding, EmbeddingLegacy1024);
        legacy, active := Some(NARROW), None;
      } else if IsNotNull(active).And(NotEq(active, WIDE)) == True {
        return false;
      }
      if IsNotNull(parked).And(NotEq(parked, WIDE)) == True {
        return false;
      }
      if Eq(active, WIDE).And(IsNotNull(parked)) == True {
        return false;
      }
      if IsNull(legacy).Or(NotEq(legacy, NARROW)) == True {
        return false;
      }
      ok := true;
      if IsNull(active) == True {
        if IsNull(parked) == True {
          ok := AddColumn(Embedding, WIDE);
        } else if Eq(parked, WIDE) == True {
          ok := RenameColumn(Embedding2048, Embedding);
        } else {
          return false;
        }
      }
    }

    /** `upgrade`, in its transaction: a statement that fails leaves everything as it was. */
    method Upgrade() returns (ok: bool)
      modifies this
      ensures ok <==> CanUpgrade(old(State()))
      ensures State() == if ok then Upgraded(old(State())) else old(State())
    {
      var saved := (chunks, indexes, archive, documents);
      indexes := indexes - {OldIndex};
      ok := UpgradeColumns();
      if ok {
        ok := AddColumn(EmbeddingFingerprint, "character varying(64)");
      }
      if ok {
        if archive == None {
          archive := Some(map[]);
        }
        ok := documents !! INGESTION;
        documents := documents + INGESTION;
      }
      if !ok {
        chunks, indexes, archive, documents := saved.0, saved.1, saved.2, saved.3;
      }
    }

    /** The last `DO` block; a missing column passes both type tests and fails the renaming instead. */
    method DowngradeColumns() returns (ok: bool)
      modifies this`chunks
      ensures ok <==> old(Kind(Embedding)) == Some(WIDE) && old(Kind(EmbeddingLegacy1024)) == Some(NARROW) && old(Kind(Embedding2048)) == None
      ensures ok ==> chunks == old(chunks) - VECTORS + map[Embedding := Column(NARROW, old(State()).Old()),
                                                           Embedding2048 := Column(WIDE, old(State()).New())]
    {
      var active, legacy, parked := Kind(Embedding), Kind(EmbeddingLegacy1024), Kind(Embedding2048);
      if NotEq(active, WIDE) == True || NotEq(legacy, NARROW) == True || IsNotNull(parked) == True {
        return false;
      }
      ok := RenameColumn(Embedding, Embedding2048);
      if ok {
        ok := RenameColumn(EmbeddingLegacy1024, Embedding);
      }
    }

    /** The statements between the archive guard and the last block. */
    method DropTelemetry() returns (ok: bool)
      modifies this`archive, this`chunks, this`documents
      ensures archive == None && chunks == old(chunks) - {EmbeddingFingerprint} && documents == old(documents) - INGESTION
      ensures ok <==> EmbeddingFingerprint in old(chunks) && INGESTION <= old(documents)
      ensures State().Old() == old(State()).Old() && State().New() == old(State()).New()
      ensures forall name | name in VECTORS :: Kind(name) == old(Kind(name))
    {
      archive := None;
      ok := DropColumn(EmbeddingFingerprint);
      ok := ok && INGESTION <= documents;
      documents := documents - INGESTION;
    }

    /** The statements behind the archive guard. */
    method DowngradeTables() returns (ok: bool)
      requires archive == Some(map[])
      modifies this
      ensures ok <==> CanDowngrade(old(State()))
      ensures ok ==> State() == Downgraded(old(State()))
    {
      hide Dimension, Decimal, Digits, ParseDecimal;
      Widths();
      ok := DropTelemetry();
      indexes := indexes - {OldIndex};
      if ok {
        ok := DowngradeColumns();
      }
      if ok {
        ok := CreateVectorIndex(OldIndex, Embedding);
      }
    }

    /** `downgrade`, in its transaction. A populated archive stops it before any statement. */
    method Downgrade() returns (ok: bool)
      modifies this
      ensures ok <==> CanDowngrade(old(State()))
      ensures State() == if ok then Downgraded(old(State())) else old(State())
    {
      if archive == None || archive.value != map[] {
        return false;
      }
      hide Downgraded, CanDowngrade;
      var saved := (chunks, indexes, archive, documents);
      ok := DowngradeTables();
      if !ok {
        chunks, indexes, archive, documents := saved.0, saved.1, saved.2, saved.3;
      }
    }
  }

  // The readiness guard.

  /** The width in the text of a vector type. */
  function Dimension(kind: Option<string>): Option<nat> {
    if kind.None? then None
    else
      var s := kind.value;
      if |s| > 8 && s[..7] == "vector(" && s[|s| - 1] == ')' && Digits(s[7..|s| - 1])
      then Some(ParseDecimal(s[7..|s| - 1])) else None
  }

  lemma DimensionOf(n: nat)
    ensures Dimension(Some(VectorType(n))) == Some(n)
  {
    var s := VectorType(n);
    assert s[7..|s| - 1] == Decimal(n);
    ParseDecimalOf(n);
  }

  lemma Widths()
    ensures VectorType(1024) == NARROW && VectorType(2048) == WIDE
    ensures Dimension(Some(NARROW)) == Some(1024) && Dimension(Some(WIDE)) == Some(2048)
  {
    assert Decimal(102) == "102" && Decimal(204) == "204";
    DimensionOf(1024);
    DimensionOf(2048);
  }

  predicate Ready(configured: nat, orm: nat, s: Catalog) {
    && configured == 2048
    && orm == 2048
    && Dimension(s.Kind(Embedding)) == Some(2048)
    && Dimension(s.Kind(EmbeddingLegacy1024)) == Some(1024)
    && OldIndex !in s.indexes
    && Dimension(s.Kind(Embedding2048)) == None
  }

  /** The guard admits every schema an upgrade leaves and none a downgrade leaves. */
  lemma ReadyAfterUpgradeOnly(s: Catalog, configured: nat, orm: nat)
    ensures CanUpgrade(s) ==> Ready(2048, 2048, Upgraded(s))
    ensures CanDowngrade(s) ==> !Ready(configured, orm, Downgraded(s))
  {
    assert Dimension(None) == None;
    Widths();
    hide Dimension, Decimal, Digits, ParseDecimal;
    var u, d := Upgraded(s), Downgraded(s);
    assert u.Kind(Embedding) == Some(WIDE) && u.Kind(EmbeddingLegacy1024) == Some(NARROW) && u.Kind(Embedding2048) == None;
    assert d.Kind(EmbeddingLegacy1024) == None;
  }

  /**
   * Over any schema with the new columns the guard takes a parked column for absent when its type is
   * not `vector(n)`: there it is ready while neither migration would run.
   */
  lemma ReadyExactly(s: Catalog, configured: nat, orm: nat)
    ensures s.Kind(Embedding) == Some(WIDE) && s.Kind(EmbeddingLegacy1024) == Some(NARROW) ==>
              (Ready(2048, 2048, s) <==> OldIndex !in s.indexes && Dimension(s.Kind(Embedding2048)) == None)
    ensures Ready(configured, orm, s) && Embedding2048 in s.chunks ==> !CanUpgrade(s) && !CanDowngrade(s)
  {
    assert Dimension(None) == None;
    Widths();
    hide Dimension, Decimal, Digits, ParseDecimal;
  }

  /** Such a schema: a parked column of vectors without a width, as pgvector also allows. */
  lemma UnsizedParkedColumnIsMissed() returns (s: Catalog)
    ensures s.Kind(Embedding2048) == Some("vector") && Ready(2048, 2048, s)
    ensures !CanUpgrade(s) && !CanDowngrade(s)
  {
    s := Catalog(
      map[Embedding := Column(WIDE, map[]), EmbeddingLegacy1024 := Column(NARROW, map[]), Embedding2048 := Column("vector", map[])],
      {}, None, {});
    Widths();
  }

  // Runs: migrations up and down, and what the application does between them.

  datatype Event =
    | Upgrade
    | Downgrade
    | Write(row: Row, vector: Option<Vector>) // a chunk's active vector is stored or cleared
    | Detach(row: Row)                        // a revised chunk goes, its old vector kept in the archive

  ghost predicate OldSchema(s: Catalog) {
    && s.Kind(Embedding) == Some(NARROW) && s.Kind(EmbeddingLegacy1024) == None
    && (s.Kind(Embedding2048) == None || s.Kind(Embedding2048) == Some(WIDE))
    && EmbeddingFingerprint !in s.chunks && s.documents !! INGESTION && s.archive == None
  }

  ghost predicate NewSchema(s: Catalog) {
    && s.Kind(Embedding) == Some(WIDE) && s.Kind(EmbeddingLegacy1024) == Some(NARROW)
    && s.Kind(Embedding2048) == None && OldIndex !in s.indexes
    && EmbeddingFingerprint in s.chunks && INGESTION <= s.documents && s.archive.Some?
  }

  ghost predicate Legal(s: Catalog) {
    OldSchema(s) || NewSchema(s)
  }


  /** An event that cannot happen, or a migration that fails, changes nothing. */
  ghost function Next(s: Catalog, e: Event): Catalog {
    match e
    case Upgrade => if CanUpgrade(s) then Upgraded(s) else s
    case Downgrade => if CanDowngrade(s) then Downgraded(s) else s
    case Write(row, vector) =>
      if Embedding !in s.chunks then s
      else
        var c := s.chunks[Embedding];
        var cells := if vector.None? then c.cells - {row} else c.cells[row := vector.value];
        s.(chunks := s.chunks[Embedding := c.(cells := cells)])
    case Detach(row) =>
      if s.archive.None? || row !in s.Cells(EmbeddingLegacy1024) || row in s.archive.value then s
      else
        s.(archive := Some(s.archive.value[row := s.Old()[row]]),
           chunks := map name | name in s.chunks ::
             s.chunks[name].(cells := s.chunks[name].cells - {row}))
  }

  ghost function Run(s: Catalog, events: seq<Event>): Catalog
    decreases |events|
  {
    if events == [] then s else Run(Next(s, events[0]), events[1..])
  }

  function Archive(s: Catalog): map<Row, Vector> {
    if s.archive.None? then map[] else s.archive.value
  }

  function At(m: map<Row, Vector>, row: Row): (v: Option<Vector>)
    ensures v == None <==> row !in m
    ensures row in m ==> v == Some(m[row])
  {
    if row in m then Some(m[row]) else None
  }

  /** The old vector of a chunk, wherever it is: in the archive, set aside, or active. */
  function OldVector(s: Catalog, row: Row): (v: Option<Vector>)
    ensures s.archive.Some? && row in s.archive.value ==> v == Some(s.archive.value[row])
    ensures (s.archive.None? || row !in s.archive.value) && row in s.Old() ==> v == Some(s.Old()[row])
    ensures v == None <==> (s.archive.None? || row !in s.archive.value) && row !in s.Old()
  {
    At(s.Old() + Archive(s), row)
  }

  /** Neither migration moves a vector out of its space or changes one, whatever the schema it starts from. */
  lemma MigrationKeeps(s: Catalog, e: Event)
    requires e.Upgrade? || e.Downgrade?
    ensures Next(s, e).Old() == s.Old() && Next(s, e).New() == s.New() && Archive(Next(s, e)) == Archive(s)
    ensures forall name | name in s.chunks && name !in VECTORS && name != EmbeddingFingerprint ::
              name in Next(s, e).chunks && Next(s, e).chunks[name] == s.chunks[name]
    ensures Legal(s) ==> Legal(Next(s, e))
    ensures Legal(s) && e.Upgrade? ==> NewSchema(Next(s, e))
    ensures Legal(s) && e.Downgrade? ==> (OldSchema(Next(s, e)) <==> Archive(s) == map[])
  {
  }

  lemma EventKeeps(s: Catalog, e: Event, row: Row)
    requires Legal(s) && (e.Write? ==> e.row != row)
    ensures Legal(Next(s, e))
    ensures OldVector(Next(s, e), row) == OldVector(s, row)
    ensures !e.Detach? || e.row != row ==> At(Next(s, e).New(), row) == At(s.New(), row)
  {
    if e.Upgrade? || e.Downgrade? {
      MigrationKeeps(s, e);
    }
  }

  /**
   * Over every run from a legal schema, a chunk that the application does not rewrite keeps its old
   * vector, be it detached into the archive, and, unless it is detached, its new one.
   */
  lemma {:induction false} RunKeeps(s: Catalog, events: seq<Event>, row: Row)
    requires Legal(s) && forall e | e in events :: e.Write? ==> e.row != row
    ensures Legal(Run(s, events))
    ensures OldVector(Run(s, events), row) == OldVector(s, row)
    ensures Detach(row) !in events ==> At(Run(s, events).New(), row) == At(s.New(), row)
    decreases |events|
  {
    if events != [] {
      EventKeeps(s, events[0], row);
      RunKeeps(Next(s, events[0]), events[1..], row);
    }
  }

  lemma DownAndUpChunks(s: Catalog)
    requires NewSchema(s) && s.chunks[EmbeddingFingerprint].kind == "character varying(64)"
    ensures Upgraded(Downgraded(s)).chunks
            == s.chunks[EmbeddingFingerprint := s.chunks[EmbeddingFingerprint].(cells := map[])]
  {
    var d, others := Downgraded(s), s.chunks - {EmbeddingFingerprint} - VECTORS;
    assert d.Old() == s.Old() && d.New() == s.New();
    assert d.chunks - VECTORS == others;
    assert s.chunks[Embedding] == Column(WIDE, s.New()) && s.chunks[EmbeddingLegacy1024] == Column(NARROW, s.Old());
    hide Downgraded, NewSchema;
    assert others + map[EmbeddingLegacy1024 := s.chunks[EmbeddingLegacy1024], Embedding := s.chunks[Embedding]]
           == s.chunks - {EmbeddingFingerprint};
  }

  /** Down and up again gives back the whole schema, but for the fingerprints, which are dropped. */
  lemma DownAndUp(s: Catalog)
    requires NewSchema(s) && Archive(s) == map[] && s.chunks[EmbeddingFingerprint].kind == "character varying(64)"
    ensures CanDowngrade(s) && CanUpgrade(Downgraded(s))
    ensures Upgraded(Downgraded(s))
            == s.(chunks := s.chunks[EmbeddingFingerprint := s.chunks[EmbeddingFingerprint].(cells := map[])])
  {
    DownAndUpChunks(s);
    var u := Upgraded(Downgraded(s));
    assert CanUpgrade(Downgraded(s)) && u.archive == s.archive;
    assert u.indexes == s.indexes && u.documents == s.documents;
    hide *;
  }

  lemma UpAndDownChunks(s: Catalog)
    requires OldSchema(s)
    ensures Downgraded(Upgraded(s)).chunks == s.chunks[Embedding2048 := Column(WIDE, s.New())]
  {
    var u, others := Upgraded(s), s.chunks - VECTORS;
    assert u.Old() == s.Old() && u.New() == s.New();
    assert u.chunks - {EmbeddingFingerprint} - VECTORS == others;
    assert s.chunks[Embedding] == Column(NARROW, s.Old());
    hide Upgraded;
    assert others + map[Embedding := s.chunks[Embedding]] == s.chunks - {Embedding2048};
  }

  /** Up and down again gives back the old one with the parked column and the index in place. */
  lemma UpAndDown(s: Catalog)
    requires OldSchema(s)
    ensures CanUpgrade(s) && CanDowngrade(Upgraded(s))
    ensures Downgraded(Upgraded(s))
            == s.(chunks := s.chunks[Embedding2048 := Column(WIDE, s.New())], indexes := s.indexes + {OldIndex})
  {
    UpAndDownChunks(s);
    var d := Downgraded(Upgraded(s));
    assert CanUpgrade(s) && CanDowngrade(Upgraded(s)) && d.archive == s.archive;
    assert d.indexes == s.indexes + {OldIndex} && d.documents == s.documents;
    hide *;
  }
}
