/** The table of LIFX products (as of January 2022) and the lookup of a product id in it. */
module LifxProducts {
  import opened LifxProtocol

  /** lifx_light_type: colour, white with kelvin adjustment, white with brightness only,
      on/off relay. */
  datatype LightType = Color | AdjWhite | White | Relay

  /** lifx_zone_type. */
  datatype ZoneType = Single | Linear | ExtLinear | Matrix | MatrixChain

  /** lifx_types_struct: one row of the product table. */
  datatype ProductInfo = ProductInfo(
    name: string,
    vendor: uint32,
    pid: uint32,
    color: LightType,
    infrared: bool,
    zones: ZoneType,
    hev: bool)

  // The table's product rows, in source order, in four parts so that properties of each
  // part can be checked entry by entry.

  const Chunk0: seq<ProductInfo> := [
    ProductInfo("LIFX Original 1000", 1, 1, Color, false, Single, false),
    ProductInfo("LIFX Color 650", 1, 3, Color, false, Single, false),
    ProductInfo("LIFX White 800 (LV)", 1, 10, AdjWhite, false, Single, false),
    ProductInfo("LIFX White 800 (HV)", 1, 11, AdjWhite, false, Single, false),
    ProductInfo("LIFX Color 1000", 1, 15, Color, false, Single, false),
    ProductInfo("LIFX White 900 BR30 (LV)", 1, 18, AdjWhite, false, Single, false),
    ProductInfo("LIFX White 900 BR30 (HV)", 1, 19, AdjWhite, false, Single, false),
    ProductInfo("LIFX Color 1000 BR30", 1, 20, Color, false, Single, false),
    ProductInfo("LIFX Color 1000", 1, 22, Color, false, Single, false),
    ProductInfo("LIFX A19", 1, 27, Color, false, Single, false),
    ProductInfo("LIFX BR30", 1, 28, Color, false, Single, false),
    ProductInfo("LIFX A19 Night Vision", 1, 29, Color, true, Single, false),
    ProductInfo("LIFX BR30 Night Vision", 1, 30, Color, true, Single, false),
    ProductInfo("LIFX Z", 1, 31, Color, false, Linear, false),
    ProductInfo("LIFX Z", 1, 32, Color, false, ExtLinear, false),
    ProductInfo("LIFX Downlight", 1, 36, Color, false, Single, false)
  ]

  const Chunk1: seq<ProductInfo> := [
    ProductInfo("LIFX Downlight", 1, 37, Color, false, Single, false),
    ProductInfo("LIFX Beam", 1, 38, Color, false, Linear, false),
    ProductInfo("LIFX Downlight White to Warm", 1, 39, AdjWhite, false, Single, false),
    ProductInfo("LIFX Downlight", 1, 40, Color, false, Single, false),
    ProductInfo("LIFX A19", 1, 43, Color, false, Single, false),
    ProductInfo("LIFX BR30", 1, 44, Color, false, Single, false),
    ProductInfo("LIFX A19 Night Vision", 1, 45, Color, true, Single, false),
    ProductInfo("LIFX BR30 Night Vision", 1, 46, Color, true, Single, false),
    ProductInfo("LIFX Mini Color", 1, 49, Color, false, Single, false),
    ProductInfo("LIFX Mini White to Warm", 1, 50, AdjWhite, false, Single, false),
    ProductInfo("LIFX Mini White", 1, 51, White, false, Single, false),
    ProductInfo("LIFX GU10", 1, 52, Color, false, Single, false),
    ProductInfo("LIFX GU10", 1, 53, Color, false, Single, false),
    ProductInfo("LIFX Tile", 1, 55, Color, false, MatrixChain, false),
    ProductInfo("LIFX Candle", 1, 57, Color, false, Matrix, false),
    ProductInfo("LIFX Mini Color", 1, 59, Color, false, Single, false)
  ]

  const Chunk2: seq<ProductInfo> := [
    ProductInfo("LIFX Mini White to Warm", 1, 60, AdjWhite, false, Single, false),
    ProductInfo("LIFX Mini White", 1, 61, White, false, Single, false),
    ProductInfo("LIFX A19", 1, 62, Color, false, Single, false),
    ProductInfo("LIFX BR30", 1, 63, Color, false, Single, false),
    ProductInfo("LIFX A19 Night Vision", 1, 64, Color, true, Single, false),
    ProductInfo("LIFX BR30 Night Vision", 1, 65, Color, true, Single, false),
    ProductInfo("LIFX Mini White", 1, 66, White, false, Single, false),
    ProductInfo("LIFX Candle", 1, 68, Color, false, Matrix, false),
    ProductInfo("LIFX Candle White to Warm", 1, 81, AdjWhite, false, Matrix, false),
    ProductInfo("LIFX Filament Clear", 1, 82, White, false, Single, false),
    ProductInfo("LIFX Filament Amber", 1, 85, White, false, Single, false),
    ProductInfo("LIFX Mini White", 1, 88, White, false, Single, false),
    ProductInfo("LIFX Clean", 1, 90, Color, false, Single, true),
    ProductInfo("LIFX Color", 1, 91, Color, false, Single, false),
    ProductInfo("LIFX Color", 1, 92, Color, false, Single, false),
    ProductInfo("LIFX A19 US", 1, 93, Color, false, Single, false)
  ]

  const Chunk3: seq<ProductInfo> := [
    ProductInfo("LIFX BR30", 1, 94, Color, false, Single, false),
    ProductInfo("LIFX Candle White to Warm", 1, 96, AdjWhite, false, Single, false),
    ProductInfo("LIFX A19", 1, 97, Color, false, Single, false),
    ProductInfo("LIFX BR30", 1, 98, Color, false, Single, false),
    ProductInfo("LIFX Clean", 1, 99, Color, false, Single, true),
    ProductInfo("LIFX Filament Clear", 1, 100, White, false, Single, false),
    ProductInfo("LIFX Filament Amber", 1, 101, White, false, Single, false),
    ProductInfo("LIFX A19 Night Vision", 1, 109, Color, true, Single, false),
    ProductInfo("LIFX BR30 Night Vision", 1, 110, Color, true, Single, false),
    ProductInfo("LIFX A19 Night Vision", 1, 111, Color, true, Single, false),
    ProductInfo("LIFX BR30 Night Vision", 1, 112, Color, true, Single, false),
    ProductInfo("LIFX Mini WW US", 1, 113, AdjWhite, false, Matrix, false),
    ProductInfo("LIFX Mini WW Intl", 1, 114, AdjWhite, false, Matrix, false)
  ]

  /** The row that closes the table: no name, product id 0. */
  const Sentinel: ProductInfo := ProductInfo("", 1, 0, Color, false, Single, false)

  /** lifx_types: the product rows followed by the sentinel. */
  const Table: seq<ProductInfo> := Chunk0 + Chunk1 + Chunk2 + Chunk3 + [Sentinel]

  /** The position of the sentinel, the table's last row. */
  const SentinelIndex: nat := 61

  /** Every row is a LIFX (vendor 1) product with a nonzero id. */
  predicate Genuine(s: seq<ProductInfo>) {
    forall i | 0 <= i < |s| :: s[i].vendor == 1 && s[i].pid != 0
  }

  /** Each row's product id is smaller than the next row's. */
  predicate Ascending(s: seq<ProductInfo>) {
    forall i | 0 <= i < |s| - 1 :: s[i].pid < s[i + 1].pid
  }

  /** Joining two ascending runs, the first ending below where the second starts, gives an
      ascending run; joining rows of genuine products gives such rows. */
  lemma Join(a: seq<ProductInfo>, b: seq<ProductInfo>)
    requires Genuine(a) && Genuine(b) && Ascending(a) && Ascending(b)
    requires a != [] && b != [] && a[|a| - 1].pid < b[0].pid
    ensures Genuine(a + b) && Ascending(a + b)
  {
    forall i | 0 <= i < |a + b| - 1
      ensures (a + b)[i].pid < (a + b)[i + 1].pid
    {
      if i == |a| - 1 {
        assert (a + b)[i] == a[|a| - 1] && (a + b)[i + 1] == b[0];
      } else if i < |a| - 1 {
        assert (a + b)[i] == a[i] && (a + b)[i + 1] == a[i + 1];
      } else {
        assert (a + b)[i] == b[i - |a|] && (a + b)[i + 1] == b[i - |a| + 1];
      }
    }
  }

  /** Adjacent order extends to any two rows: in an ascending run, an earlier row has the
      smaller product id. */
  lemma {:induction false} AscendingOrdered(s: seq<ProductInfo>, i: nat, j: nat)
    requires Ascending(s) && i < j < |s|
    ensures s[i].pid < s[j].pid
    decreases j - i
  {
    if i + 1 < j {
      AscendingOrdered(s, i + 1, j);
    }
  }

  // Each part on its own, entry by entry.
  lemma Chunk0Rows() ensures Genuine(Chunk0) && Ascending(Chunk0) && Chunk0[|Chunk0| - 1].pid < Chunk1[0].pid {}
  lemma Chunk1Rows() ensures Genuine(Chunk1) && Ascending(Chunk1) && Chunk1[|Chunk1| - 1].pid < Chunk2[0].pid {}
  lemma Chunk2Rows() ensures Genuine(Chunk2) && Ascending(Chunk2) && Chunk2[|Chunk2| - 1].pid < Chunk3[0].pid {}
  lemma Chunk3Rows() ensures Genuine(Chunk3) && Ascending(Chunk3) {}

  /** The product rows: genuine and in ascending order of product id. */
  lemma ProductRows()
    ensures Table[..SentinelIndex] == Chunk0 + Chunk1 + Chunk2 + Chunk3
    ensures Genuine(Table[..SentinelIndex]) && Ascending(Table[..SentinelIndex])
  {
    Chunk0Rows();
    Chunk1Rows();
    Chunk2Rows();
    Chunk3Rows();
    Join(Chunk0, Chunk1);
    Join(Chunk0 + Chunk1, Chunk2);
    Join(Chunk0 + Chunk1 + Chunk2, Chunk3);
    assert Table[..SentinelIndex] == Chunk0 + Chunk1 + Chunk2 + Chunk3;
  }

  /** The shape of lifx_types: 62 rows, all of vendor 1; the product ids of the first 61
      strictly increase and are nonzero; the last row is the sentinel, the only one with id 0. */
  lemma TableShape()
    ensures |Table| == SentinelIndex + 1 && Table[SentinelIndex] == Sentinel
    ensures forall i | 0 <= i < |Table| :: Table[i].vendor == 1
    ensures forall i | 0 <= i < |Table| :: Table[i].pid == 0 <==> i == SentinelIndex
    ensures forall i, j | 0 <= i < j < SentinelIndex :: Table[i].pid < Table[j].pid
  {
    ProductRows();
    var rows := Table[..SentinelIndex];
    assert forall i | 0 <= i < SentinelIndex :: Table[i] == rows[i];
    forall i, j | 0 <= i < j < SentinelIndex
      ensures Table[i].pid < Table[j].pid
    {
      AscendingOrdered(rows, i, j);
    }
  }

  /** The product ids are pairwise distinct: each id names at most one row. */
  lemma PidsDistinct()
    ensures forall i, j | 0 <= i < |Table| && 0 <= j < |Table| && Table[i].pid == Table[j].pid :: i == j
  {
    TableShape();
  }

  /** The position of the first row of s with product id pid, or -1 when none has it. */
  function FirstPidIndex(s: seq<ProductInfo>, pid: uint32): (r: int)
    ensures -1 <= r < |s|
    ensures r >= 0 ==> s[r].pid == pid && forall j | 0 <= j < r :: s[j].pid != pid
    ensures r == -1 <==> forall j | 0 <= j < |s| :: s[j].pid != pid
  {
    if s == [] then -1
    else if s[0].pid == pid then 0
    else
      var k := FirstPidIndex(s[1..], pid);
      if k == -1 then -1 else k + 1
  }

  /** A row with that id that no earlier row has is the first one. */
  lemma FirstPidIndexAt(s: seq<ProductInfo>, pid: uint32, i: nat)
    requires i < |s| && s[i].pid == pid
    requires forall j | 0 <= j < i :: s[j].pid != pid
    ensures FirstPidIndex(s, pid) == i
  {
  }

  /** lifx_find_pid_index: reads rows from the front, stopping at the first row with that
      id (whose index it returns) or after reading the sentinel (returning -1). Since the
      id is compared before the loop tests for the sentinel, pid 0 finds the sentinel. */
  method FindPidIndex(pid: uint32) returns (r: int)
    ensures r == FirstPidIndex(Table, pid)
  {
    TableShape();
    var i := 0;
    var p: int := -1;
    while p != 0
      invariant 0 <= i <= |Table|
      invariant i == 0 ==> p == -1
      invariant 0 < i ==> p == Table[i - 1].pid
      invariant forall j | 0 <= j < i :: Table[j].pid != pid
      decreases |Table| - i
    {
      p := Table[i].pid;
      if p == pid {
        FirstPidIndexAt(Table, pid, i);
        return i;
      }
      i := i + 1;
    }
    return -1;
  }

  /** The lookup's answer is -1 or a row of the table; a row it names has that id and is
      the only row with it, and -1 means no row, sentinel included, has that id. */
  lemma FindPidIndexMeaning(pid: uint32)
    ensures var r := FirstPidIndex(Table, pid);
      && -1 <= r <= SentinelIndex
      && (r >= 0 ==> Table[r].pid == pid && forall j | 0 <= j < |Table| && Table[j].pid == pid :: j == r)
      && (r == -1 <==> forall j | 0 <= j < |Table| :: Table[j].pid != pid)
  {
    TableShape();
    PidsDistinct();
  }

  /** Looking up the id of any row finds that row. */
  lemma FindsEveryRow(i: nat)
    requires i < |Table|
    ensures FirstPidIndex(Table, Table[i].pid) == i
  {
    PidsDistinct();
    FirstPidIndexAt(Table, Table[i].pid, i);
  }

  /** pid 0 finds the sentinel's own position rather than -1. */
  lemma PidZeroFindsSentinel()
    ensures FirstPidIndex(Table, 0) == SentinelIndex
  {
    TableShape();
    FindsEveryRow(SentinelIndex);
  }
}
