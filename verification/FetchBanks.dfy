/**
 The 3D register file. Texture and vertex fetch constants share one window of registers; a
 write there is classified by its tag bits and by what was written just before, and vertex
 constants go to a bank of their own.
 */
module FetchBanks {
  import opened Words

  const REGISTERS := 0x8000
  const WINDOW := 0x4800
  const WINDOW_SIZE := 192
  const NONE := 0xFFFF_FFFF

  datatype Banks = Banks(
    registers: seq<int>,
    vertex: seq<int>,
    pendingVertex: int,
    pendingTexture: int,
    pendingWords: int)

  const CLEAR := Banks(seq(REGISTERS, _ => 0), seq(WINDOW_SIZE, _ => 0), NONE, NONE, 0)

  predicate Sized(b: Banks) {
    |b.registers| == REGISTERS && |b.vertex| == WINDOW_SIZE
  }

  /** What the pending fields say, whatever was written before. */
  ghost predicate PendingValid(b: Banks) {
    if b.pendingWords == 0 then b.pendingTexture == NONE
    else
      && 1 <= b.pendingWords <= 5
      && WINDOW < b.pendingTexture < WINDOW + WINDOW_SIZE
      && (b.pendingTexture - WINDOW) % 6 == 6 - b.pendingWords
  }

  function Write(b: Banks, index: int, value: int): (r: Banks)
    requires Sized(b) && 0 <= index
    ensures Sized(r)
  {
    if WINDOW <= index < WINDOW + WINDOW_SIZE then WriteFetch(b, index, value)
    else if index < REGISTERS then b.(registers := b.registers[index := value])
    else b
  }

  function WriteFetch(b: Banks, index: int, value: int): (r: Banks)
    requires Sized(b) && WINDOW <= index < WINDOW + WINDOW_SIZE
    ensures Sized(r)
  {
    if b.pendingWords != 0 && index == b.pendingTexture then
      var left := b.pendingWords - 1;
      b.(registers := b.registers[index := value],
         pendingTexture := if left == 0 then NONE else b.pendingTexture + 1,
         pendingWords := left)
    else
      Classify(if b.pendingWords != 0 then b.(pendingTexture := NONE, pendingWords := 0) else b, index, value)
  }

  /** A write that does not continue a texture constant. */
  function Classify(b: Banks, index: int, value: int): (r: Banks)
    requires Sized(b) && WINDOW <= index < WINDOW + WINDOW_SIZE
    ensures Sized(r)
  {
    var fetch := index - WINDOW;
    if fetch % 6 == 0 && value % 4 == 2 then
      b.(registers := b.registers[index := value], pendingTexture := index + 1, pendingWords := 5,
         pendingVertex := NONE)
    else if value % 4 == 3 then
      b.(vertex := b.vertex[fetch := value], pendingVertex := index)
    else if b.pendingVertex != NONE && index == b.pendingVertex + 1 then
      b.(vertex := b.vertex[fetch := value], pendingVertex := NONE)
    else
      b.(registers := b.registers[index := value], pendingVertex := NONE)
  }

  // ---- Uploads ----

  /** A write, labelled with what the title meant by it. */
  datatype Access =
    | Plain(index: int, value: int)
    | TextureWord(slot: int, word: int, value: int)
    | VertexWord(pair: int, word: int, value: int)
  {
    function Index(): int {
      match this
      case Plain(index, _) => index
      case TextureWord(slot, word, _) => WINDOW + 6 * slot + word
      case VertexWord(pair, word, _) => WINDOW + 2 * pair + word
    }
  }

  /** How far the current upload has come. */
  datatype Progress = Between | InTexture(slot: int, next: int) | InVertex(pair: int)

  predicate Admits(p: Progress, a: Access) {
    match a
    case Plain(index, _) => 0 <= index && !(WINDOW <= index < WINDOW + WINDOW_SIZE)
    case TextureWord(slot, word, value) =>
      0 <= slot < 32 &&
      if word == 0 then p == Between && value % 4 == 2 else p == InTexture(slot, word) && 1 <= word <= 5
    case VertexWord(pair, word, value) =>
      0 <= pair < 96 &&
      if word == 0 then p == Between && value % 4 == 3 else p == InVertex(pair) && word == 1
  }

  function After(p: Progress, a: Access): Progress {
    match a
    case Plain(_, _) => p
    case TextureWord(slot, word, _) => if word == 5 then Between else InTexture(slot, word + 1)
    case VertexWord(pair, word, _) => if word == 0 then InVertex(pair) else Between
  }

  /** Complete uploads, with any writes outside the window among their words. */
  predicate CompleteUploads(p: Progress, run: seq<Access>)
    decreases |run|
  {
    if run == [] then p == Between else Admits(p, run[0]) && CompleteUploads(After(p, run[0]), run[1..])
  }

  function WriteAll(b: Banks, run: seq<Access>): (r: Banks)
    requires Sized(b) && forall a | a in run :: 0 <= a.Index()
    ensures Sized(r)
    decreases |run|
  {
    if run == [] then b else WriteAll(Write(b, run[0].Index(), run[0].value), run[1..])
  }

  /** The registers if no vertex constant had ever been written. */
  function RegistersAlone(registers: seq<int>, run: seq<Access>): seq<int>
    decreases |run|
  {
    if run == [] then registers
    else
      var a := run[0];
      var next := if !a.VertexWord? && 0 <= a.Index() < |registers| then registers[a.Index() := a.value] else registers;
      RegistersAlone(next, run[1..])
  }

  /** The vertex bank if nothing else had ever been written. */
  function VertexAlone(vertex: seq<int>, run: seq<Access>): seq<int>
    decreases |run|
  {
    if run == [] then vertex
    else
      var a := run[0];
      var at := a.Index() - WINDOW;
      VertexAlone(if a.VertexWord? && 0 <= at < |vertex| then vertex[at := a.value] else vertex, run[1..])
  }

  lemma WriteKeepsPending(b: Banks, index: int, value: int)
    requires Sized(b) && PendingValid(b) && 0 <= index
    ensures PendingValid(Write(b, index, value))
  {
  }

  /** The classifier stands where the labels say the upload stands. */
  ghost predicate Follows(b: Banks, p: Progress) {
    match p
    case Between => b.pendingWords == 0
    case InTexture(slot, next) =>
      b.pendingWords == 6 - next && b.pendingTexture == WINDOW + 6 * slot + next && 1 <= next <= 5
    case InVertex(pair) => b.pendingWords == 0 && b.pendingVertex == WINDOW + 2 * pair
  }

  /** An interrupted texture constant expects exactly the register that the next upload starts at. */
  predicate Collides(expected: int, run: seq<Access>)
    decreases |run|
  {
    run != [] && if run[0].Plain? then Collides(expected, run[1..]) else run[0].Index() == expected
  }

  lemma AccessFollows(b: Banks, p: Progress, a: Access)
    requires Sized(b) && Follows(b, p) && Admits(p, a)
    ensures var t := Write(b, a.Index(), a.value);
      && Follows(t, After(p, a))
      && t.registers == RegistersAlone(b.registers, [a]) && t.vertex == VertexAlone(b.vertex, [a])
  {
    match a
    case Plain(_, _) =>
    case TextureWord(slot, word, _) =>
      if word == 0 { assert (6 * slot) % 6 == 0; }
    case VertexWord(pair, word, _) =>
      if word == 1 { assert (2 * pair + 1) % 6 != 0; }
  }

  lemma {:induction false} UploadsFollow(b: Banks, p: Progress, run: seq<Access>)
    requires Sized(b) && Follows(b, p) && CompleteUploads(p, run)
    ensures forall a | a in run :: 0 <= a.Index()
    ensures var t := WriteAll(b, run);
      t.registers == RegistersAlone(b.registers, run) && t.vertex == VertexAlone(b.vertex, run) && t.pendingWords == 0
    decreases |run|
  {
    if run != [] {
      var a := run[0];
      AccessFollows(b, p, a);
      assert RegistersAlone(b.registers, [a]) == RegistersAlone(RegistersAlone(b.registers, [a]), []);
      UploadsFollow(Write(b, a.Index(), a.value), After(p, a), run[1..]);
      assert run == [a] + run[1..];
    }
  }

  /** The classifier after it has given up on an interrupted texture constant. */
  function Settled(b: Banks): Banks {
    b.(pendingTexture := NONE, pendingWords := 0)
  }

  lemma StartSettles(b: Banks, a: Access)
    requires Sized(b) && PendingValid(b) && !a.Plain? && Admits(Between, a) && a.Index() != b.pendingTexture
    ensures Write(b, a.Index(), a.value) == Write(Settled(b), a.Index(), a.value)
  {
    assert b.pendingWords == 0 ==> Settled(b) == b;
  }

  /**
   Complete uploads leave each bank as if it had been written alone, whatever tag bits the data
   words carry - from any state whose interrupted texture constant, if any, does not expect
   exactly the register where the next upload starts.
   */
  lemma {:induction false} BanksIndependent(b: Banks, run: seq<Access>)
    requires Sized(b) && PendingValid(b) && CompleteUploads(Between, run) && !Collides(b.pendingTexture, run)
    ensures forall a | a in run :: 0 <= a.Index()
    ensures var t := WriteAll(b, run);
      t.registers == RegistersAlone(b.registers, run) && t.vertex == VertexAlone(b.vertex, run)
    decreases |run|
  {
    if b.pendingWords == 0 {
      UploadsFollow(b, Between, run);
    } else if run != [] {
      var a := run[0];
      assert run == [a] + run[1..];
      if a.Plain? {
        BanksIndependent(Write(b, a.index, a.value), run[1..]);
      } else {
        StartSettles(b, a);
        UploadsFollow(Settled(b), Between, run);
      }
    }
  }

  /** A texture constant always starts afresh, so no interruption can catch it. */
  lemma TexturesNeverCollide(b: Banks, run: seq<Access>)
    requires PendingValid(b) && run != [] && run[0].TextureWord? && Admits(Between, run[0])
    ensures !Collides(b.pendingTexture, run)
  {
    assert (6 * run[0].slot + run[0].word) % 6 == 0;
  }

  function VertexUpload(pair: int, first: int, second: int): seq<Access> {
    [VertexWord(pair, 0, first), VertexWord(pair, 1, second)]
  }

  /** A vertex constant reaches its own bank unless it collides; then both words land in the registers. */
  lemma VertexRouted(b: Banks, pair: int, first: int, second: int)
    requires Sized(b) && PendingValid(b) && 0 <= pair < 96 && first % 4 == 3
    ensures Collides(b.pendingTexture, VertexUpload(pair, first, second)) <==> b.pendingTexture == WINDOW + 2 * pair
    ensures var t := Write(Write(b, WINDOW + 2 * pair, first), WINDOW + 2 * pair + 1, second);
      t == WriteAll(b, VertexUpload(pair, first, second)) &&
      if b.pendingTexture == WINDOW + 2 * pair then
        t.vertex == b.vertex && t.registers == b.registers[WINDOW + 2 * pair := first][WINDOW + 2 * pair + 1 := second]
      else
        t.registers == b.registers && t.vertex == b.vertex[2 * pair := first][2 * pair + 1 := second]
  {
    var run := VertexUpload(pair, first, second);
    assert run[1..] == [VertexWord(pair, 1, second)];
    assert run[1..][1..] == [];
    var t := Write(b, WINDOW + 2 * pair, first);
    assert WriteAll(b, run) == WriteAll(t, run[1..]) == WriteAll(Write(t, WINDOW + 2 * pair + 1, second), []);
    if b.pendingTexture == WINDOW + 2 * pair {
      assert b.pendingWords % 2 == 0 by { assert (2 * pair) % 6 == 6 - b.pendingWords; }
    } else {
      assert (2 * pair + 1) % 6 != 0;
    }
  }

  /** A vertex constant is routed as intended exactly when it does not collide - or was in both banks already. */
  lemma VertexRoutedIff(b: Banks, pair: int, first: int, second: int)
    requires Sized(b) && PendingValid(b) && 0 <= pair < 96 && first % 4 == 3
    ensures var run := VertexUpload(pair, first, second);
      var t := WriteAll(b, run);
      var at := 2 * pair;
      t.registers == b.registers && t.vertex == b.vertex[at := first][at + 1 := second] <==>
        !Collides(b.pendingTexture, run) || (b.vertex[at] == b.registers[WINDOW + at] == first &&
                                             b.vertex[at + 1] == b.registers[WINDOW + at + 1] == second)
  {
    VertexRouted(b, pair, first, second);
    hide Write;
    var at := 2 * pair;
    var registers := b.registers[WINDOW + at := first][WINDOW + at + 1 := second];
    assert registers[WINDOW + at] == first && registers[WINDOW + at + 1] == second;
    var vertex := b.vertex[at := first][at + 1 := second];
    assert vertex[at] == first && vertex[at + 1] == second;
    if b.registers[WINDOW + at] == first && b.registers[WINDOW + at + 1] == second {
      assert registers == b.registers;
    }
    if b.vertex[at] == first && b.vertex[at + 1] == second {
      assert vertex == b.vertex;
    }
  }

  /** Whether the classifier sends a write to the vertex bank. */
  predicate ToVertex(b: Banks, index: int, value: int) {
    && WINDOW <= index < WINDOW + WINDOW_SIZE
    && !(b.pendingWords != 0 && index == b.pendingTexture)
    && !((index - WINDOW) % 6 == 0 && value % 4 == 2)
    && (value % 4 == 3 || (b.pendingVertex != NONE && index == b.pendingVertex + 1))
  }

  /** A write changes one word of the bank it is sent to, and nothing of the other. */
  lemma WriteRoutes(b: Banks, index: int, value: int)
    requires Sized(b) && 0 <= index
    ensures var t := Write(b, index, value);
      if ToVertex(b, index, value) then t.registers == b.registers && t.vertex == b.vertex[index - WINDOW := value]
      else t.vertex == b.vertex && t.registers == if index < REGISTERS then b.registers[index := value] else b.registers
  {
  }

  /** Every word of the run is sent where its upload means it to go. */
  predicate RunRouted(b: Banks, run: seq<Access>)
    requires Sized(b) && forall a | a in run :: 0 <= a.Index()
    decreases |run|
  {
    run == [] ||
    (ToVertex(b, run[0].Index(), run[0].value) == run[0].VertexWord? &&
     RunRouted(Write(b, run[0].Index(), run[0].value), run[1..]))
  }

  lemma AccessRouted(b: Banks, p: Progress, a: Access)
    requires Follows(b, p) && Admits(p, a)
    ensures ToVertex(b, a.Index(), a.value) == a.VertexWord?
  {
    if a.TextureWord? { assert (6 * a.slot) % 6 == 0; }
  }

  lemma {:induction false} FollowsRouted(b: Banks, p: Progress, run: seq<Access>)
    requires Sized(b) && Follows(b, p) && CompleteUploads(p, run) && forall a | a in run :: 0 <= a.Index()
    ensures RunRouted(b, run)
    decreases |run|
  {
    hide Write, ToVertex, Admits;
    if run != [] {
      var a := run[0];
      AccessFollows(b, p, a);
      AccessRouted(b, p, a);
      FollowsRouted(Write(b, a.Index(), a.value), After(p, a), run[1..]);
    }
  }

  lemma CollisionMisroutes(b: Banks, a: Access)
    requires PendingValid(b) && !a.Plain? && Admits(Between, a) && a.Index() == b.pendingTexture
    ensures a.VertexWord? && !ToVertex(b, a.Index(), a.value)
  {
    if a.TextureWord? { TexturesNeverCollide(b, [a]); }
  }

  lemma SettledRoutes(b: Banks, a: Access)
    requires PendingValid(b) && a.Index() != b.pendingTexture
    ensures ToVertex(Settled(b), a.Index(), a.value) == ToVertex(b, a.Index(), a.value)
  {
  }

  /** From any state, each word of complete uploads goes to its own bank exactly when the run does not collide. */
  lemma {:induction false} RunRoutedIff(b: Banks, run: seq<Access>)
    requires Sized(b) && PendingValid(b) && CompleteUploads(Between, run) && forall a | a in run :: 0 <= a.Index()
    ensures RunRouted(b, run) <==> !Collides(b.pendingTexture, run)
    decreases |run|
  {
    hide Write, ToVertex;
    if run != [] {
      var a := run[0];
      if a.Plain? {
        PlainStays(b, a);
        RunRoutedIff(Write(b, a.index, a.value), run[1..]);
      } else if a.Index() == b.pendingTexture {
        CollisionMisroutes(b, a);
      } else {
        StartSettles(b, a);
        SettledRoutes(b, a);
        FollowsRouted(Settled(b), Between, run);
      }
    }
  }

  lemma PlainStays(b: Banks, a: Access)
    requires Sized(b) && PendingValid(b) && a.Plain? && Admits(Between, a)
    ensures !ToVertex(b, a.index, a.value) && PendingValid(Write(b, a.index, a.value))
    ensures Write(b, a.index, a.value).pendingTexture == b.pendingTexture
  {
  }

  /** A collision can happen: after two words of a texture constant, the vertex constant of pair 1 goes astray. */
  lemma CollisionReachable(word: int, first: int, second: int)
    requires first % 4 == 3
    ensures var b := Write(Write(CLEAR, WINDOW, 2), WINDOW + 1, word);
      var t := WriteAll(b, VertexUpload(1, first, second));
      && b.pendingTexture == WINDOW + 2 && Collides(b.pendingTexture, VertexUpload(1, first, second))
      && t.vertex == b.vertex && t.registers == b.registers[WINDOW + 2 := first][WINDOW + 3 := second]
  {
    var b := Write(CLEAR, WINDOW, 2);
    var c := Write(b, WINDOW + 1, word);
    assert b.pendingTexture == WINDOW + 1 && b.pendingWords == 5;
    assert c.pendingTexture == WINDOW + 2 && c.pendingWords == 4;
    VertexRouted(c, 1, first, second);
  }

  /** A vertex constant leaves every texture descriptor alone. */
  lemma {:induction false} VertexUploadsKeepRegisters(registers: seq<int>, run: seq<Access>)
    requires forall a | a in run :: a.VertexWord?
    ensures RegistersAlone(registers, run) == registers
    decreases |run|
  {
    if run != [] {
      assert run[0] in run;
      VertexUploadsKeepRegisters(registers, run[1..]);
    }
  }

  // ---- The registers as the GPU holds them ----

  class RegisterFile {
    const registers: array<int>
    const vertex: array<int>
    var pendingVertex: int
    var pendingTexture: int
    var pendingWords: int

    ghost predicate Valid()
      reads this
    {
      registers != vertex && registers.Length == REGISTERS && vertex.Length == WINDOW_SIZE
    }

    function Contents(): Banks
      reads this, registers, vertex
    {
      Banks(registers[..], vertex[..], pendingVertex, pendingTexture, pendingWords)
    }

    constructor ()
      ensures Valid() && Contents() == CLEAR && fresh(registers) && fresh(vertex)
    {
      registers := new int[REGISTERS](_ => 0);
      vertex := new int[WINDOW_SIZE](_ => 0);
      pendingVertex, pendingTexture, pendingWords := NONE, NONE, 0;
    }

    method WriteGpuRegister(index: int, value: int)
      requires Valid() && 0 <= index
      modifies this, registers, vertex
      ensures Valid() && Contents() == Write(old(Contents()), index, value)
    {
      if WINDOW <= index < WINDOW + WINDOW_SIZE {
        var fetch := index - WINDOW;
        if pendingWords != 0 {
          if index == pendingTexture {
            registers[index] := value;
            pendingTexture := pendingTexture + 1;
            pendingWords := pendingWords - 1;
            if pendingWords == 0 {
              pendingTexture := NONE;
            }
            return;
          }
          pendingTexture := NONE;
          pendingWords := 0;
        }
        if fetch % 6 == 0 && value % 4 == 2 {
          registers[index] := value;
          pendingTexture := index + 1;
          pendingWords := 5;
          pendingVertex := NONE;
          return;
        }
        if value % 4 == 3 {
          vertex[fetch] := value;
          pendingVertex := index;
          return;
        }
        if pendingVertex != NONE && index == pendingVertex + 1 {
          vertex[fetch] := value;
          pendingVertex := NONE;
          return;
        }
        pendingVertex := NONE;
      }
      if index < registers.Length {
        registers[index] := value;
      }
    }
  }
}
