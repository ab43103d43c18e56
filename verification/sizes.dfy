/** The human-readable size ladder used for files and data directories: a
    byte count is divided by 1024 until it drops below 1024, stepping
    through B, KB, MB and GB, and whatever is left after GB is reported in
    TB however large it is. The two-decimal text formatting is not
    modelled; the value is the exact quotient. */
module Sizes {
  import opened Wrappers

  datatype Unit = B | KB | MB | GB | TB

  /** The unit's place on the ladder: how many divisions by 1024 it took. */
  function Rank(u: Unit): (k: nat)
    ensures k <= 4
  {
    match u
    case B => 0
    case KB => 1
    case MB => 2
    case GB => 3
    case TB => 4
  }

  /** The unit tried at step k; every step past GB lands on TB. */
  function UnitAt(k: nat): (u: Unit)
    ensures k <= 4 ==> Rank(u) == k
  {
    if k == 0 then B else if k == 1 then KB else if k == 2 then MB else if k == 3 then GB else TB
  }

  /** 1024 to the power k. */
  function Scale(k: nat): (s: real)
    ensures s >= 1.0
  {
    if k == 0 then 1.0 else 1024.0 * Scale(k - 1)
  }

  datatype Human = Human(value: real, unit: Unit)

  /** The loop from step k on, with the size already divided k times. */
  function Ladder(size: real, k: nat): (r: Human)
    requires k <= 4
    decreases 4 - k
  {
    if k == 4 then Human(size, TB)
    else if size < 1024.0 then Human(size, UnitAt(k))
    else Ladder(size / 1024.0, k + 1)
  }

  /** From step k the ladder stops at a later unit, its value times the
      remaining divisions gives back the size, and below TB the value is
      under 1024. */
  lemma {:induction false} LadderValue(size: real, k: nat)
    requires k <= 4
    ensures var r := Ladder(size, k);
      && k <= Rank(r.unit)
      && r.value * Scale(Rank(r.unit) - k) == size
      && (r.unit != TB ==> r.value < 1024.0)
    decreases 4 - k
  {
    var r := Ladder(size, k);
    if k < 4 && size >= 1024.0 {
      var q := size / 1024.0;
      LadderValue(q, k + 1);
      var n := Rank(r.unit) - k;
      assert r.value * Scale(n - 1) == q;
      calc {
        r.value * Scale(n);
        r.value * (1024.0 * Scale(n - 1));
        1024.0 * (r.value * Scale(n - 1));
      }
    }
  }

  /** Every step the ladder went past from step k had a quotient of at
      least 1024: after m further divisions the size was still that
      large. */
  lemma {:induction false} LadderSkips(size: real, k: nat)
    requires k <= 4
    ensures var r := Ladder(size, k);
      forall m: nat :: k + m < Rank(r.unit) ==> 1024.0 * Scale(m) <= size
    decreases 4 - k
  {
    var r := Ladder(size, k);
    if k < 4 && size >= 1024.0 {
      var q := size / 1024.0;
      LadderSkips(q, k + 1);
      forall m: nat | k + m < Rank(r.unit) ensures 1024.0 * Scale(m) <= size {
        if m > 0 {
          assert 1024.0 * Scale(m - 1) <= q;
        }
      }
    }
  }

  /** `get_file_size_human` on a byte count. */
  function HumanSize(bytes: nat): (r: Human)
    ensures bytes < 1024 ==> r == Human(bytes as real, B)
  {
    Ladder(bytes as real, 0)
  }

  /** The reported value is the byte count divided by 1024 once per step;
      the unit is the first of B, KB, MB, GB whose quotient is below 1024,
      and TB when none is, so below TB the value is always under 1024. */
  lemma HumanSizeSpec(bytes: nat)
    ensures var r := HumanSize(bytes);
      && r.value * Scale(Rank(r.unit)) == bytes as real
      && (r.unit != TB ==> bytes as real < Scale(Rank(r.unit) + 1))
      && (forall j: nat :: 0 < j <= Rank(r.unit) ==> Scale(j) <= bytes as real)
  {
    var r := HumanSize(bytes);
    LadderValue(bytes as real, 0);
    LadderSkips(bytes as real, 0);
    var k := Rank(r.unit);
    if r.unit != TB {
      assert r.value < 1024.0;
      assert Scale(k + 1) == 1024.0 * Scale(k);
      assert r.value * Scale(k) < 1024.0 * Scale(k);
    }
    forall j: nat | 0 < j <= k ensures Scale(j) <= bytes as real {
      assert 1024.0 * Scale(j - 1) <= bytes as real;
    }
  }

  /** The unit is TB exactly when the size reaches 1024^4 bytes. */
  lemma TerabytesIff(bytes: nat)
    ensures HumanSize(bytes).unit == TB <==> Scale(4) <= bytes as real
  {
    var r := HumanSize(bytes);
    HumanSizeSpec(bytes);
    if r.unit != TB {
      var k := Rank(r.unit);
      ScaleMonotone(k + 1, 4);
    }
  }

  lemma {:induction false} ScaleMonotone(a: nat, b: nat)
    requires a <= b
    ensures Scale(a) <= Scale(b)
    decreases b - a
  {
    if a < b {
      ScaleMonotone(a, b - 1);
    }
  }

  /** `get_file_size`: a missing file counts as zero bytes. */
  function FileSize(stat: Option<nat>): (n: nat)
    ensures stat.None? ==> n == 0
    ensures stat.Some? ==> n == stat.value
  {
    if stat.None? then 0 else stat.value
  }

  /** `get_directory_size`: the total over every file found below the
      directory, zero when the directory does not exist. */
  function DirectorySize(files: Option<seq<nat>>): (n: nat)
    ensures files.None? ==> n == 0
    ensures files.Some? ==> n == Total(files.value)
  {
    if files.None? then 0 else Total(files.value)
  }

  function Total(sizes: seq<nat>): (n: nat)
  {
    if |sizes| == 0 then 0 else Total(sizes[..|sizes| - 1]) + sizes[|sizes| - 1]
  }

  /** Each file counts toward the total, which is at least any one of them. */
  lemma {:induction false} TotalBounds(sizes: seq<nat>)
    ensures forall i :: 0 <= i < |sizes| ==> sizes[i] <= Total(sizes)
    ensures Total(sizes) == 0 <==> forall i :: 0 <= i < |sizes| ==> sizes[i] == 0
  {
    if |sizes| > 0 {
      TotalBounds(sizes[..|sizes| - 1]);
    }
  }

  /** `get_file_size_human` and `get_directory_size_human`. */
  function FileSizeHuman(stat: Option<nat>): Human
  {
    HumanSize(FileSize(stat))
  }

  function DirectorySizeHuman(files: Option<seq<nat>>): Human
  {
    HumanSize(DirectorySize(files))
  }

  /** A directory is reported exactly as a single file of its total size
      would be. */
  lemma DirectoryLadderIsFileLadder(files: Option<seq<nat>>)
    ensures DirectorySizeHuman(files) == FileSizeHuman(Some(DirectorySize(files)))
    ensures files.None? ==> DirectorySizeHuman(files) == Human(0.0, B)
  {
  }
}
