/** The command list popup: a selection and a scrolling window over a history that can change. */
module CommandListPopup {

  /** A 16-bit signed integer keeps the low bits of what is stored in it: 65536 is taken off or added until it fits. */
  function Short(x: int): (r: int)
    ensures -0x8000 <= r <= 0x7FFF
    decreases if x > 0x7FFF then x else if x < -0x8000 then -x else 0
  {
    if x > 0x7FFF then Short(x - 0x1_0000) else if x < -0x8000 then Short(x + 0x1_0000) else x
  }

  const MAX_SHORT: int := 0x7FFF

  function Min(a: int, b: int): int { if a < b then a else b }
  function Max(a: int, b: int): int { if a < b then b else a }

  lemma {:induction false} ShortIsRemainder(x: int)
    ensures Short(x) == (x + 0x8000) % 0x1_0000 - 0x8000
    decreases if x > 0x7FFF then x else if x < -0x8000 then -x else 0
  {
    if x > 0x7FFF {
      ShortIsRemainder(x - 0x1_0000);
    } else if x < -0x8000 {
      ShortIsRemainder(x + 0x1_0000);
    }
  }

  lemma {:induction false} ShortExact(x: int)
    requires -0x8000 <= x <= 0x7FFF
    ensures Short(x) == x
  {
  }

  lemma {:induction false} ShortWraps(x: int)
    requires 0x7FFF < x <= 0x7FFF + 0x8000
    ensures Short(x) == x - 0x1_0000 < 0
  {
  }

  // ---------- The window ----------

  /** The selection is on screen, and the window is full as far as there are commands. */
  predicate InWindow(current: int, bottom: int, count: nat, height: nat) {
    && Min(height, count) - 1 <= bottom <= count - 1
    && Max(0, bottom - height + 1) <= current <= bottom
  }

  /** Sizes for which the 16-bit window arithmetic does not wrap. */
  predicate Fits(count: nat, height: nat) { count <= height || count + height <= 0x8001 }

  /** A remainder by an unsigned count: a negative number is converted first. */
  function Modulo(x: int, count: nat): (r: int)
    requires x >= -0x8000 && count > 0
    ensures 0 <= r < count
    ensures 0 <= x < count ==> r == x
  {
    Remainder(if x < 0 then x + 0x1_0000_0000_0000_0000 else x, count)
  }

  function Remainder(x: nat, count: nat): (r: nat)
    requires count > 0
    ensures r < count
  {
    if x < count then x else Remainder(x - count, count)
  }

  lemma {:induction false} RemainderIs(x: nat, count: nat)
    requires count > 0
    ensures Remainder(x, count) == x % count
  {
    if x < count {
    } else {
      RemainderIs(x - count, count);
      LessOnce(x, count);
    }
  }

  lemma {:induction false} LessOnce(x: nat, count: nat)
    requires 0 < count <= x
    ensures x % count == (x - count) % count
  {
    var q, r := (x - count) / count, (x - count) % count;
    assert x == (q + 1) * count + r;
    QuotientUnique(x, count, q + 1, r);
  }

  lemma {:induction false} QuotientUnique(x: nat, count: nat, q: nat, r: nat)
    requires r < count && x == q * count + r
    ensures x % count == r
  {
    var q', r' := x / count, x % count;
    if q < q' {
      ProductGrows(q + 1, q', count);
    } else if q' < q {
      ProductGrows(q' + 1, q, count);
    }
  }

  lemma {:induction false} ProductGrows(a: nat, b: nat, c: nat)
    requires a <= b
    ensures a * c <= b * c
  {
  }

  /** Where a move by `delta` lands. */
  function Target(current: int, delta: int, count: nat, wrap: bool): (r: int)
    requires count > 0
    ensures 0 <= r < count
  {
    var next := Short(current + delta);
    if wrap then Modulo(next, count)
    else if next >= count then count - 1
    else if next < 0 then 0
    else next
  }

  /** The last line of the window after the selection moves. */
  function Scrolled(current: int, bottom: int, next: int, count: nat, height: nat): int {
    var moved := Short(bottom + Short(next - current));
    if next <= bottom - height then Max(moved, height - 1)
    else if next > bottom then if moved >= count then count - 1 else moved
    else bottom
  }

  /** Every move keeps the selection in the window. */
  lemma {:induction false} ScrollKeeps(current: int, bottom: int, next: int, count: nat, height: nat)
    requires 0 < count <= MAX_SHORT && 0 < height <= MAX_SHORT && Fits(count, height)
    requires InWindow(current, bottom, count, height) && 0 <= next < count
    ensures InWindow(next, Scrolled(current, bottom, next, count, height), count, height)
  {
    ShortExact(next - current);
    if next <= bottom - height || next > bottom {
      ShortExact(bottom + next - current);
    }
  }

  /**
    Where the last line goes: nowhere as long as the target is in the window, and otherwise as far
    as the selection moves, but not past the ends of the list.
   */
  lemma {:induction false} ScrollMoves(current: int, bottom: int, next: int, count: nat, height: nat)
    requires 0 < count <= MAX_SHORT && 0 < height <= MAX_SHORT && Fits(count, height)
    requires InWindow(current, bottom, count, height) && 0 <= next < count
    ensures Scrolled(current, bottom, next, count, height)
         == if bottom - height < next <= bottom then bottom
            else Max(height - 1, Min(count - 1, bottom + (next - current)))
  {
    ShortExact(next - current);
    if next <= bottom - height || next > bottom {
      ShortExact(bottom + next - current);
    }
  }

  /** For larger sizes a single press of End from the top loses the window. */
  lemma {:induction false} EndLosesWindow(count: nat, height: nat)
    requires 0 < count <= MAX_SHORT && 0 < height <= MAX_SHORT && !Fits(count, height)
    ensures InWindow(0, height - 1, count, height)
    ensures var next := Target(0, Short(count), count, false);
            next == count - 1 && !InWindow(next, Scrolled(0, height - 1, next, count, height), count, height)
  {
    ShortExact(count);
    ShortExact(count - 1);
    ShortWraps(height - 1 + (count - 1));
  }

  /** Exactly for the sizes that fit, every move from every place in the window stays in it. */
  lemma {:induction false} WindowIffFits(count: nat, height: nat)
    requires 0 < count <= MAX_SHORT && 0 < height <= MAX_SHORT
    ensures Fits(count, height) <==>
            forall current: int, bottom: int, next: int ::
              InWindow(current, bottom, count, height) && 0 <= next < count ==>
                InWindow(next, Scrolled(current, bottom, next, count, height), count, height)
  {
    if Fits(count, height) {
      forall current: int, bottom: int, next: int
        | InWindow(current, bottom, count, height) && 0 <= next < count
        ensures InWindow(next, Scrolled(current, bottom, next, count, height), count, height)
      {
        ScrollKeeps(current, bottom, next, count, height);
      }
    } else {
      EndLosesWindow(count, height);
    }
  }

  /** End selects the last command exactly as long as the sum still is a 16-bit integer; otherwise the first. */
  lemma {:induction false} EndSelectsLast(current: int, count: nat)
    requires 0 <= current < count <= MAX_SHORT
    ensures Target(current, Short(count), count, false) == (if current + count <= MAX_SHORT then count - 1 else 0)
    ensures Target(current, Short(count), count, false) == count - 1 <==> current + count <= MAX_SHORT
  {
    ShortExact(count);
    if current + count <= MAX_SHORT {
      ShortExact(current + count);
    } else {
      ShortWraps(current + count);
    }
  }

  lemma {:induction false} HomeSelectsFirst(current: int, count: nat)
    requires 0 <= current < count <= MAX_SHORT
    ensures Target(current, -Short(count), count, false) == 0
  {
    ShortExact(count);
    ShortExact(current - count);
  }

  /** A single step moves by one and stops at the ends. */
  lemma {:induction false} StepMoves(current: int, count: nat)
    requires 0 <= current < count <= MAX_SHORT
    ensures Target(current, -1, count, false) == Max(0, current - 1)
    ensures Target(current, 1, count, false) == Min(count - 1, current + 1)
  {
    ShortExact(current - 1);
    ShortExact(current + 1);
  }

  /** Going to a match lands on it. */
  lemma {:induction false} MatchSelected(current: int, index: int, count: nat)
    requires 0 <= current < count <= MAX_SHORT && 0 <= index < count
    ensures Target(current, Short(index - current), count, true) == index
    ensures Short(index - current) == index - current
  {
    ShortExact(index - current);
    ShortExact(index);
  }

  /** A page up stops at the top; a page down wraps to the top once the sum is no 16-bit integer. */
  lemma {:induction false} PageMoves(current: int, count: nat, height: nat)
    requires 0 <= current < count <= MAX_SHORT && 0 < height <= MAX_SHORT
    ensures Target(current, -Short(height), count, false) == Max(0, current - height)
    ensures Target(current, Short(height), count, false)
         == if current + height <= MAX_SHORT then Min(count - 1, current + height) else 0
  {
    ShortExact(height);
    ShortExact(current - height);
    if current + height <= MAX_SHORT {
      ShortExact(current + height);
    } else {
      ShortWraps(current + height);
    }
  }

  // ---------- Searching backwards ----------

  /** The position `d` steps back, going round. */
  function Back(current: int, d: nat, count: nat): (r: int)
    requires 0 <= current < count && d <= count
    ensures 0 <= r < count || (r == count && d == 0)
  {
    if d <= current then current - d else current - d + count
  }

  /** The nearest earlier command that matches, from `d` steps back on; -1 if there is none. */
  function NextMatch(commands: seq<string>, current: int, matches: string -> bool, d: nat): (r: int)
    requires 0 <= current < |commands| && 0 < d <= |commands| + 1
    ensures -1 <= r < |commands| && (r >= 0 ==> matches(commands[r]))
    decreases |commands| + 1 - d
  {
    if d > |commands| then -1
    else if matches(commands[Back(current, d, |commands|)]) then Back(current, d, |commands|)
    else NextMatch(commands, current, matches, d + 1)
  }

  // ---------- One key at a time ----------

  datatype Key =
    | Up | Down | Home | End | PageUp | PageDown | SwapUp | SwapDown | Delete
    | Letter(matches: string -> bool)

  /** What the popup shows: the history, the selection and the last line of the window. */
  datatype View = View(commands: seq<string>, current: int, bottom: int)

  predicate Open(v: View, height: nat) {
    0 < |v.commands| <= MAX_SHORT && 0 < height <= MAX_SHORT && 0 <= v.current < |v.commands|
  }

  predicate Framed(v: View, height: nat) {
    Open(v, height) && InWindow(v.current, v.bottom, |v.commands|, height)
  }

  function Moved(v: View, delta: int, wrap: bool, height: nat): View
    requires v.commands != []
  {
    if delta == 0 then v
    else
      var next := Target(v.current, delta, |v.commands|, wrap);
      View(v.commands, next, Scrolled(v.current, v.bottom, next, |v.commands|, height))
  }

  function Swapped(commands: seq<string>, i: int, j: int): seq<string>
    requires 0 <= i < |commands| && 0 <= j < |commands|
  {
    commands[i := commands[j]][j := commands[i]]
  }

  /** The last line of a window that is laid out anew. */
  function BottomFor(current: int, count: nat, height: nat): int {
    if current < Short(count - height) then Max(current, height - 1) else Short(count - 1)
  }

  /** Without the selected command; the selection stays in place or falls back to the new last command. */
  function Removed(v: View, height: nat): View
    requires 0 <= v.current < |v.commands|
  {
    var rest := v.commands[..v.current] + v.commands[v.current + 1..];
    if rest != [] && v.current >= Short(|rest|) then View(rest, Short(|rest| - 1), Short(|rest| - 1))
    else View(rest, v.current, BottomFor(v.current, |rest|, height))
  }

  /** Swaps the selected command with a neighbour and moves the selection along. */
  function Exchanged(v: View, j: int, height: nat): View
    requires 0 <= v.current < |v.commands| && 0 <= j < |v.commands|
  {
    Moved(v.(commands := Swapped(v.commands, v.current, j)), j - v.current, false, height)
  }

  /** How far the keys that only move the selection try to move it. */
  function Delta(key: Key, count: nat, height: nat): int {
    match key
    case Up => -1
    case Down => 1
    case End => Short(count)
    case Home => -Short(count)
    case PageUp => -Short(height)
    case PageDown => Short(height)
    case _ => 0
  }

  function Cycled(v: View, matches: string -> bool, height: nat): View
    requires Open(v, height)
  {
    var index := NextMatch(v.commands, v.current, matches, 1);
    if index < 0 then v else Moved(v, Short(index - v.current), true, height)
  }

  function Pressed(v: View, key: Key, height: nat): View
    requires Open(v, height)
  {
    match key
    case SwapUp => if v.current == 0 then v else Exchanged(v, v.current - 1, height)
    case SwapDown => if v.current == |v.commands| - 1 then v else Exchanged(v, v.current + 1, height)
    case Delete => Removed(v, height)
    case Letter(matches) => Cycled(v, matches, height)
    case _ => Moved(v, Delta(key, |v.commands|, height), false, height)
  }

  lemma {:induction false} MovedKeeps(v: View, delta: int, wrap: bool, height: nat)
    requires Open(v, height)
    ensures Open(Moved(v, delta, wrap, height), height)
    ensures Framed(v, height) && Fits(|v.commands|, height) ==> Framed(Moved(v, delta, wrap, height), height)
  {
    if delta != 0 && Framed(v, height) && Fits(|v.commands|, height) {
      ScrollKeeps(v.current, v.bottom, Target(v.current, delta, |v.commands|, wrap), |v.commands|, height);
    }
  }

  lemma {:induction false} BottomFrames(current: int, count: nat, height: nat)
    requires 0 <= current < count <= MAX_SHORT && 0 < height <= MAX_SHORT
    ensures InWindow(current, BottomFor(current, count, height), count, height)
  {
    ShortExact(count - height);
    ShortExact(count - 1);
  }

  /** A new layout ends with the last command if that shows the selection, and otherwise begins as early as it can. */
  lemma {:induction false} BottomIs(current: int, count: nat, height: nat)
    requires 0 <= current < count <= MAX_SHORT && 0 < height <= MAX_SHORT
    ensures BottomFor(current, count, height)
         == if count - height <= current then count - 1 else if height <= current then current else height - 1
  {
    ShortExact(count - height);
    ShortExact(count - 1);
  }

  /** A deletion takes out the selected command alone and lays the window out anew, whatever it was. */
  lemma {:induction false} RemovedKeeps(v: View, height: nat)
    requires Open(v, height)
    ensures var r := Removed(v, height);
            && multiset(v.commands) == multiset(r.commands) + multiset{v.commands[v.current]}
            && |r.commands| == |v.commands| - 1
            && r.commands == v.commands[..v.current] + v.commands[v.current + 1..]
            && (r.commands != [] ==> Framed(r, height) && r.current == Min(v.current, |r.commands| - 1))
  {
    var rest := v.commands[..v.current] + v.commands[v.current + 1..];
    assert v.commands == v.commands[..v.current] + [v.commands[v.current]] + v.commands[v.current + 1..];
    if rest != [] {
      ShortExact(|rest|);
      ShortExact(|rest| - 1);
      if v.current < |rest| {
        BottomFrames(v.current, |rest|, height);
      }
    }
  }

  /** Two neighbours change places, and the selection follows its command. */
  lemma {:induction false} SwapKeeps(v: View, j: int, height: nat)
    requires Open(v, height) && 0 <= j < |v.commands| && (j == v.current - 1 || j == v.current + 1)
    ensures var u := v.(commands := Swapped(v.commands, v.current, j));
            var r := Exchanged(v, j, height);
            && multiset(r.commands) == multiset(v.commands) && |r.commands| == |v.commands|
            && Open(u, height) && (Framed(v, height) ==> Framed(u, height))
            && r.current == j && r.commands[j] == v.commands[v.current]
            && forall k :: 0 <= k < |r.commands| && k != j && k != v.current ==> r.commands[k] == v.commands[k]
  {
    StepMoves(v.current, |v.commands|);
  }

  /**
    From one view to a later one: the popup closed or stayed open, the window was kept if the
    sizes fit, and no command appeared or was doubled while `gone` of them were taken out.
   */
  predicate LeadsTo(v: View, r: View, gone: nat, height: nat) {
    && (r.commands != [] ==> Open(r, height))
    && (r.commands != [] && Framed(v, height) && Fits(|v.commands|, height) ==> Framed(r, height))
    && multiset(r.commands) <= multiset(v.commands)
    && (gone == 0 ==> multiset(r.commands) == multiset(v.commands))
    && |r.commands| == |v.commands| - gone
  }

  lemma {:induction false} StaysLeads(v: View, height: nat)
    requires Open(v, height)
    ensures LeadsTo(v, v, 0, height)
  {
  }

  lemma {:induction false} MovedLeads(v: View, delta: int, wrap: bool, height: nat)
    requires Open(v, height)
    ensures LeadsTo(v, Moved(v, delta, wrap, height), 0, height)
  {
    MovedKeeps(v, delta, wrap, height);
  }

  lemma {:induction false} SwapLeads(v: View, j: int, height: nat)
    requires Open(v, height) && 0 <= j < |v.commands| && (j == v.current - 1 || j == v.current + 1)
    ensures LeadsTo(v, Exchanged(v, j, height), 0, height)
  {
    SwapKeeps(v, j, height);
    MovedKeeps(v.(commands := Swapped(v.commands, v.current, j)), j - v.current, false, height);
  }

  lemma {:induction false} RemovedLeads(v: View, height: nat)
    requires Open(v, height)
    ensures LeadsTo(v, Removed(v, height), 1, height)
  {
    RemovedKeeps(v, height);
  }

  lemma {:induction false} CycledLeads(v: View, matches: string -> bool, height: nat)
    requires Open(v, height)
    ensures LeadsTo(v, Cycled(v, matches, height), 0, height)
  {
    var index := NextMatch(v.commands, v.current, matches, 1);
    if index < 0 {
      StaysLeads(v, height);
    } else {
      MovedLeads(v, Short(index - v.current), true, height);
    }
  }

  /** What any key does; only Delete takes out a command, the selected one (`RemovedKeeps`). */
  lemma {:induction false} KeyKeeps(v: View, key: Key, height: nat)
    requires Open(v, height)
    ensures LeadsTo(v, Pressed(v, key, height), if key.Delete? then 1 else 0, height)
  {
    match key
    case SwapUp => if v.current == 0 { StaysLeads(v, height); } else { SwapLeads(v, v.current - 1, height); }
    case SwapDown =>
      if v.current == |v.commands| - 1 { StaysLeads(v, height); } else { SwapLeads(v, v.current + 1, height); }
    case Delete => RemovedLeads(v, height);
    case Letter(matches) => CycledLeads(v, matches, height);
    case _ => MovedLeads(v, Delta(key, |v.commands|, height), false, height);
  }

  /** Where a key takes the selection, while no sum leaves the 16 bits. */
  lemma {:induction false} KeySelects(v: View, key: Key, height: nat)
    requires Open(v, height) && v.current + |v.commands| <= MAX_SHORT && v.current + height <= MAX_SHORT
    ensures var r, last := Pressed(v, key, height), |v.commands| - 1;
            match key
            case Up => r.current == Max(0, v.current - 1)
            case Down => r.current == Min(last, v.current + 1)
            case Home => r.current == 0
            case End => r.current == last
            case PageUp => r.current == Max(0, v.current - height)
            case PageDown => r.current == Min(last, v.current + height)
            case SwapUp => r.current == Max(0, v.current - 1) && r.commands[r.current] == v.commands[v.current]
            case SwapDown => r.current == Min(last, v.current + 1) && r.commands[r.current] == v.commands[v.current]
            case Delete => r.commands != [] ==> r.current == Min(v.current, last - 1)
            case Letter(matches) =>
              var index := NextMatch(v.commands, v.current, matches, 1);
              r.current == if index < 0 then v.current else index
  {
    match key
    case SwapUp => if v.current > 0 { SwapKeeps(v, v.current - 1, height); }
    case SwapDown => if v.current < |v.commands| - 1 { SwapKeeps(v, v.current + 1, height); }
    case Delete => RemovedKeeps(v, height);
    case Letter(matches) =>
      var index := NextMatch(v.commands, v.current, matches, 1);
      if index >= 0 { MatchSelected(v.current, index, |v.commands|); }
    case _ => TargetOf(v.current, key, |v.commands|, height);
  }

  lemma {:induction false} TargetOf(current: int, key: Key, count: nat, height: nat)
    requires 0 <= current && current < count && current + count <= MAX_SHORT
    requires 0 < height && current + height <= MAX_SHORT
    ensures var target := Target(current, Delta(key, count, height), count, false);
            match key
            case Up => target == Max(0, current - 1)
            case Down => target == Min(count - 1, current + 1)
            case Home => target == 0 && Delta(key, count, height) != 0
            case End => target == count - 1 && Delta(key, count, height) != 0
            case PageUp => target == Max(0, current - height) && Delta(key, count, height) != 0
            case PageDown => target == Min(count - 1, current + height) && Delta(key, count, height) != 0
            case _ => true
  {
    ShortExact(count);
    ShortExact(height);
    match key
    case Up => StepMoves(current, count);
    case Down => StepMoves(current, count);
    case Home => HomeSelectsFirst(current, count);
    case End => EndSelectsLast(current, count);
    case PageUp => PageMoves(current, count, height);
    case PageDown => PageMoves(current, count, height);
    case _ =>
  }

  /** Home always reaches the first command; End the last one, if and only if the sum fits. */
  lemma {:induction false} EndsSelect(v: View, height: nat)
    requires Open(v, height)
    ensures Pressed(v, Home, height).current == 0
    ensures Pressed(v, End, height).current == |v.commands| - 1 <==> v.current + |v.commands| <= MAX_SHORT
  {
    ShortExact(|v.commands|);
    HomeSelectsFirst(v.current, |v.commands|);
    EndSelectsLast(v.current, |v.commands|);
  }

  // ---------- Runs of keys ----------

  /** Keys one after another, up to the one that closes the popup. */
  function PressedAll(v: View, keys: seq<Key>, height: nat): View
    requires v.commands != [] ==> Open(v, height)
    decreases |keys|
  {
    if keys == [] || v.commands == [] then v
    else
      KeyKeeps(v, keys[0], height);
      PressedAll(Pressed(v, keys[0], height), keys[1..], height)
  }

  function Deletes(keys: seq<Key>): nat {
    if keys == [] then 0 else (if keys[0].Delete? then 1 else 0) + Deletes(keys[1..])
  }

  lemma {:induction false} LeadsOn(v: View, u: View, r: View, m: nat, n: nat, height: nat)
    requires v.commands != [] && u.commands != [] && LeadsTo(v, u, m, height) && LeadsTo(u, r, n, height)
    ensures LeadsTo(v, r, m + n, height)
  {
  }

  /**
    Over every run of keys the window is kept if the sizes fit at first, and each Delete takes
    out one command, so that the popup closes exactly with the last.
   */
  lemma {:induction false} KeysKeep(v: View, keys: seq<Key>, height: nat)
    requires Open(v, height)
    ensures LeadsTo(v, PressedAll(v, keys, height), Min(Deletes(keys), |v.commands|), height)
    decreases |keys|
  {
    if keys != [] {
      var u := Pressed(v, keys[0], height);
      KeyKeeps(v, keys[0], height);
      if u.commands == [] {
        assert PressedAll(u, keys[1..], height) == u;
      } else {
        KeysKeep(u, keys[1..], height);
        LeadsOn(v, u, PressedAll(u, keys[1..], height), if keys[0].Delete? then 1 else 0,
                Min(Deletes(keys[1..]), |u.commands|), height);
      }
    }
  }

  // ---------- Drawing ----------

  /** The columns a text takes. */
  function Columns(wide: char -> bool, s: string): nat {
    if s == [] then 0 else Columns(wide, s[..|s| - 1]) + if wide(s[|s| - 1]) then 2 else 1
  }

  lemma {:induction false} ColumnsNext(wide: char -> bool, s: string, n: nat)
    requires n < |s|
    ensures Columns(wide, s[..n + 1]) == Columns(wide, s[..n]) + if wide(s[n]) then 2 else 1
  {
    assert s[..n + 1][..n] == s[..n];
  }

  lemma {:induction false} ColumnsGrow(wide: char -> bool, s: string, m: nat, n: nat)
    requires m <= n <= |s|
    ensures Columns(wide, s[..m]) <= Columns(wide, s[..n]) && (m < n ==> Columns(wide, s[..m]) < Columns(wide, s[..n]))
  {
    if m < n {
      ColumnsGrow(wide, s, m, n - 1);
      ColumnsNext(wide, s, n - 1);
    }
  }

  /** The longest prefix of a command that fits the columns left. */
  method FittingPrefix(wide: char -> bool, command: string, columns: nat) returns (length: nat)
    ensures length <= |command| && Columns(wide, command[..length]) <= columns
    ensures forall n :: length < n <= |command| ==> Columns(wide, command[..n]) > columns
  {
    length := |command|;
    var rest, left := |command|, columns as int;
    while rest > 0
      invariant 0 <= rest <= |command| == length && left == columns - Columns(wide, command[..|command| - rest])
      invariant rest < |command| ==> left > 0
    {
      var n := |command| - rest;
      ColumnsNext(wide, command, n);
      left := left - if wide(command[n]) then 2 else 1;
      rest := rest - 1;
      if left <= 0 {
        length := length - rest;
        if left < 0 {
          length := length - 1;
        }
        forall m | length < m <= |command|
          ensures Columns(wide, command[..m]) > columns
        {
          ColumnsGrow(wide, command, length + 1, m);
          ColumnsGrow(wide, command, length, m);
        }
        return;
      }
    }
    assert command[..|command|] == command;
  }

  // ---------- The popup ----------

  class Popup {
    const height: nat
    var commands: seq<string>
    var current: int
    var bottom: int

    function Shown(): View
      reads this
    {
      View(commands, current, bottom)
    }

    constructor (commands: seq<string>, lastDisplayed: int, height: nat)
      requires 0 < |commands| <= MAX_SHORT && 0 < height <= MAX_SHORT && 0 <= lastDisplayed <= MAX_SHORT
      ensures Framed(Shown(), height) && this.commands == commands && this.height == height
      ensures current == Min(lastDisplayed, |commands| - 1)
    {
      this.height := height;
      this.commands := commands;
      current := Min(lastDisplayed, Short(|commands| - 1));
      bottom := 0;
      new;
      ShortExact(|commands| - 1);
      BottomFrames(current, |commands|, height);
      SetBottomIndex();
    }

    method SetBottomIndex()
      requires |commands| <= MAX_SHORT && 0 < height <= MAX_SHORT && 0 <= current <= |commands|
      modifies `bottom
      ensures bottom == BottomFor(current, |commands|, height)
      ensures |commands| > 0 && current < |commands| ==> InWindow(current, bottom, |commands|, height)
    {
      if current < Short(|commands| - height) {
        bottom := Max(current, height - 1);
      } else {
        bottom := Short(|commands| - 1);
      }
      if current < |commands| {
        BottomFrames(current, |commands|, height);
      }
    }

    /** Moves the selection; for sizes that fit, the window goes with it. */
    method Update(delta: int, wrap: bool)
      requires Open(Shown(), height)
      modifies `current, `bottom
      ensures Shown() == Moved(old(Shown()), delta, wrap, height)
      ensures Open(Shown(), height)
      ensures old(Framed(Shown(), height)) && Fits(|commands|, height) ==> Framed(Shown(), height)
    {
      MovedKeeps(Shown(), delta, wrap, height);
      if delta == 0 {
        return;
      }
      var next := NextCommand(delta, wrap);
      ScrollTo(next);
      current := next;
    }

    method NextCommand(delta: int, wrap: bool) returns (next: int)
      requires Open(Shown(), height)
      ensures next == Target(current, delta, |commands|, wrap)
    {
      next := Short(current + delta);
      if wrap {
        next := Modulo(next, |commands|);
      } else if next >= |commands| {
        next := |commands| - 1;
      } else if next < 0 {
        next := 0;
      }
    }

    method ScrollTo(next: int)
      requires height > 0
      modifies `bottom
      ensures bottom == Scrolled(current, old(bottom), next, |commands|, height)
    {
      var size, count, delta := height, |commands|, Short(next - current);
      if next <= bottom - size {
        bottom := Short(bottom + delta);
        if bottom < size - 1 {
          bottom := size - 1;
        }
      } else if next > bottom {
        bottom := Short(bottom + delta);
        if bottom >= count {
          bottom := count - 1;
        }
      }
    }

    /** Deletes the selected command; an empty history closes the popup. */
    method DeleteSelection() returns (closed: bool)
      requires Open(Shown(), height)
      modifies this
      ensures Shown() == Removed(old(Shown()), height) && closed == (commands == [])
      ensures commands == old(commands[..current] + commands[current + 1..])
      ensures !closed ==> Framed(Shown(), height) && current == Min(old(current), |commands| - 1)
    {
      RemovedKeeps(Shown(), height);
      commands := commands[..current] + commands[current + 1..];
      SetBottomIndex();
      if |commands| == 0 {
        return true;
      }
      if current >= Short(|commands|) {
        current := Short(|commands| - 1);
        bottom := current;
      }
      return false;
    }

    method Swap(i: nat, j: nat)
      requires i < |commands| && j < |commands|
      modifies `commands
      ensures commands == Swapped(old(commands), i, j)
    {
      commands := commands[i := commands[j]][j := commands[i]];
    }

    /** Swaps the selected command with its neighbour `j`, and the selection follows. */
    method Exchange(j: nat)
      requires Open(Shown(), height) && j < |commands| && (j == current - 1 || j == current + 1)
      modifies this
      ensures Shown() == Exchanged(old(Shown()), j, height) && Open(Shown(), height)
      ensures multiset(commands) == old(multiset(commands)) && |commands| == |old(commands)|
      ensures current == j && commands[j] == old(commands[current])
      ensures forall k :: 0 <= k < |commands| && k != j && k != old(current) ==> commands[k] == old(commands)[k]
    {
      SwapKeeps(Shown(), j, height);
      var delta := j - current;
      Swap(current, j);
      Update(delta, false);
    }

    /** The selected command moves up, and the selection with it. */
    method MoveUp()
      requires Open(Shown(), height)
      modifies this
      ensures Shown() == Pressed(old(Shown()), SwapUp, height) && Open(Shown(), height)
      ensures multiset(commands) == old(multiset(commands)) && |commands| == |old(commands)|
      ensures current == Max(0, old(current) - 1) && commands[current] == old(commands[current])
      ensures forall k :: 0 <= k < |commands| && k != current && k != old(current) ==> commands[k] == old(commands)[k]
    {
      if |commands| > 1 && current != 0 {
        Exchange(current - 1);
      }
    }

    method MoveDown()
      requires Open(Shown(), height)
      modifies this
      ensures Shown() == Pressed(old(Shown()), SwapDown, height) && Open(Shown(), height)
      ensures multiset(commands) == old(multiset(commands)) && |commands| == |old(commands)|
      ensures current == Min(|commands| - 1, old(current) + 1) && commands[current] == old(commands[current])
      ensures forall k :: 0 <= k < |commands| && k != current && k != old(current) ==> commands[k] == old(commands)[k]
    {
      ShortExact(|commands|);
      if |commands| > 1 && current != Short(|commands|) - 1 {
        Exchange(current + 1);
      }
    }

    /** The nearest earlier command that matches, going round and ending with the current one. */
    method FindMatchingCommand(matches: string -> bool) returns (found: bool, index: int)
      requires Open(Shown(), height)
      ensures found <==> exists k :: 0 <= k < |commands| && matches(commands[k])
      ensures found ==> exists d :: 0 < d <= |commands| && index == Back(current, d, |commands|) &&
                          matches(commands[index]) &&
                          forall e :: 0 < e < d ==> !matches(commands[Back(current, e, |commands|)])
      ensures NextMatch(commands, current, matches, 1) == if found then index else -1
    {
      index := Previous(current);
      var i := 0;
      while i < |commands|
        invariant 0 <= i <= |commands|
        invariant i < |commands| ==> index == Back(current, i + 1, |commands|)
        invariant forall e :: 0 < e <= i ==> !matches(commands[Back(current, e, |commands|)])
        invariant NextMatch(commands, current, matches, 1) == NextMatch(commands, current, matches, i + 1)
      {
        if matches(commands[index]) {
          return true, index;
        }
        index := Previous(index);
        i := i + 1;
      }
      forall k | 0 <= k < |commands|
        ensures !matches(commands[k])
      {
        var d := if k < current then current - k else current - k + |commands|;
        assert Back(current, d, |commands|) == k;
      }
      return false, current;
    }

    method Previous(index: int) returns (r: int)
      requires 0 <= index < |commands|
      ensures r == if index == 0 then |commands| - 1 else index - 1
    {
      r := if index <= 0 then |commands| - 1 else index - 1;
    }

    method CycleToMatch(matches: string -> bool)
      requires Open(Shown(), height)
      modifies `current, `bottom
      ensures Shown() == Pressed(old(Shown()), Letter(matches), height) && Open(Shown(), height)
      ensures (exists k :: 0 <= k < |commands| && matches(commands[k])) ==> matches(commands[current])
      ensures !(exists k :: 0 <= k < |commands| && matches(commands[k])) ==> current == old(current)
    {
      var found, index := FindMatchingCommand(matches);
      if found {
        MatchSelected(current, index, |commands|);
        Update(Short(index - current), true);
      }
    }

    method HandleKey(key: Key) returns (closed: bool)
      requires Open(Shown(), height)
      modifies this
      ensures Shown() == Pressed(old(Shown()), key, height)
      ensures closed == (commands == []) && (!closed ==> Open(Shown(), height))
      ensures key.Delete? ==> commands == old(commands[..current] + commands[current + 1..])
      ensures !key.Delete? ==> multiset(commands) == old(multiset(commands)) && !closed
      ensures key.Home? ==> current == 0
      ensures key.End? ==> (current == |commands| - 1 <==> old(current) + |commands| <= MAX_SHORT)
      ensures !closed && old(Framed(Shown(), height)) && Fits(|old(commands)|, height) ==> Framed(Shown(), height)
    {
      KeyKeeps(Shown(), key, height);
      EndsSelect(Shown(), height);
      closed := Dispatch(key);
    }

    method Dispatch(key: Key) returns (closed: bool)
      requires Open(Shown(), height)
      modifies this
      ensures Shown() == Pressed(old(Shown()), key, height) && closed == (commands == [])
    {
      closed := false;
      match key {
        case SwapUp => MoveUp();
        case SwapDown => MoveDown();
        case Delete => closed := DeleteSelection();
        case Letter(matches) => CycleToMatch(matches);
        case _ => Navigate(key);
      }
    }

    /** The keys that only move the selection. */
    method Navigate(key: Key)
      requires Open(Shown(), height)
      modifies `current, `bottom
      ensures Shown() == Moved(old(Shown()), Delta(key, |commands|, height), false, height)
    {
      match key {
        case Up => Update(-1, false);
        case Down => Update(1, false);
        case End => Update(Short(|commands|), false);
        case Home => Update(-Short(|commands|), false);
        case PageUp => Update(-Short(height), false);
        case PageDown => Update(Short(height), false);
        case _ =>
      }
    }

    /** A run of keys, until the popup closes. */
    method HandleKeys(keys: seq<Key>) returns (closed: bool)
      requires Open(Shown(), height)
      modifies this
      ensures Shown() == PressedAll(old(Shown()), keys, height)
      ensures closed <==> Deletes(keys) >= |old(commands)|
      ensures multiset(commands) <= old(multiset(commands))
      ensures |commands| == Max(0, |old(commands)| - Deletes(keys))
      ensures !closed && old(Framed(Shown(), height)) && Fits(|old(commands)|, height) ==> Framed(Shown(), height)
    {
      KeysKeep(Shown(), keys, height);
      ghost var goal := PressedAll(Shown(), keys, height);
      closed := false;
      var i := 0;
      while i < |keys| && !closed
        invariant 0 <= i <= |keys| && closed == (commands == []) && (!closed ==> Open(Shown(), height))
        invariant PressedAll(Shown(), keys[i..], height) == goal
      {
        assert keys[i..][1..] == keys[i + 1..];
        closed := HandleKey(keys[i]);
        i := i + 1;
      }
    }
  }
}
