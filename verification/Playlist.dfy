/** The playlist of the media player: a doubly linked list with a cursor. */
module Playlists {
  import opened Common

  datatype Mode = Sequential | Random | Single | Loop

  // ---------- The cursor as a position ----------

  /** `rand() % cnt`, with one in place of zero. */
  function Step(r: nat, n: nat): (step: nat)
    requires n >= 2
    ensures 1 <= step < n
  {
    if r % n == 0 then 1 else r % n
  }

  /** `RK_mediaplayer_next` on the position of the current track; `r` is the value of `rand()`. */
  function NextOf(n: nat, c: Option<nat>, mode: Mode, r: nat): (c': Option<nat>)
    requires c.Some? ==> c.value < n
    ensures c'.Some? ==> c'.value < n
  {
    if c.None? then
      if n > 0 then Some(0) else None
    else match mode
      case Sequential => if c.value + 1 < n then Some(c.value + 1) else None
      case Random => if n <= 1 then c else Some((c.value + Step(r, n)) % n)
      case Single => c
      case Loop => if c.value + 1 < n then Some(c.value + 1) else Some(0)
  }

  /** `RK_mediaplayer_prev` */
  function PrevOf(n: nat, c: Option<nat>, mode: Mode, r: nat): (c': Option<nat>)
    requires c.Some? ==> c.value < n
    ensures c'.Some? ==> c'.value < n
  {
    if c.None? then
      if n > 0 then Some(n - 1) else None
    else match mode
      case Sequential => if c.value > 0 then Some(c.value - 1) else c
      case Random => if n <= 1 then c else Some((c.value + Step(r, n)) % n)
      case Single => c
      case Loop => if c.value > 0 then Some(c.value - 1) else Some(n - 1)
  }

  /** In loop mode prev undoes next exactly when there is a current track or no track at all, and likewise next prev. */
  lemma LoopUndoes(n: nat, c: Option<nat>, r: nat, r': nat)
    requires c.Some? ==> c.value < n
    ensures PrevOf(n, NextOf(n, c, Loop, r), Loop, r') == c <==> (c.Some? || n == 0)
    ensures NextOf(n, PrevOf(n, c, Loop, r), Loop, r') == c <==> (c.Some? || n == 0)
  {
  }

  /** The position after `k` nexts. */
  ghost function NextTimes(n: nat, c: Option<nat>, mode: Mode, k: nat): (c': Option<nat>)
    requires c.Some? ==> c.value < n
    ensures c'.Some? ==> c'.value < n
  {
    if k == 0 then c else NextOf(n, NextTimes(n, c, mode, k - 1), mode, 0)
  }

  lemma {:induction false} LoopPosition(n: nat, c: nat, k: nat)
    requires c < n && k <= n
    ensures NextTimes(n, Some(c), Loop, k) == Some(if c + k < n then c + k else c + k - n)
  {
    if k > 0 {
      LoopPosition(n, c, k - 1);
    }
  }

  /** The number of nexts that lead from `c` to `t`. */
  function Away(n: nat, c: nat, t: nat): nat
    requires c < n && t < n
  {
    if t > c then t - c else t + n - c
  }

  /** A tour of the loop: `n` nexts come back to the start, and every track is visited exactly once on the way. */
  lemma LoopTour(n: nat, c: nat)
    requires c < n
    ensures NextTimes(n, Some(c), Loop, n) == Some(c)
    ensures forall t: nat, k :: t < n && 1 <= k <= n ==>
              (NextTimes(n, Some(c), Loop, k) == Some(t) <==> k == Away(n, c, t))
  {
    hide NextTimes;
    LoopPosition(n, c, n);
    forall t: nat, k | t < n && 1 <= k <= n
      ensures NextTimes(n, Some(c), Loop, k) == Some(t) <==> k == Away(n, c, t)
    {
      LoopPosition(n, c, k);
    }
  }

  /** A random step never stays, and for suitable values of `rand()` it leads to every other track. */
  lemma RandomMoves(n: nat, c: nat, r: nat)
    requires n >= 2 && c < n
    ensures NextOf(n, Some(c), Random, r) == PrevOf(n, Some(c), Random, r) == Some((c + Step(r, n)) % n)
    ensures NextOf(n, Some(c), Random, r) != Some(c)
  {
    hide Step;
    WrapsOnce(c + Step(r, n), n);
  }

  lemma RandomReaches(n: nat, c: nat, t: nat)
    requires n >= 2 && c < n && t < n && t != c
    ensures NextOf(n, Some(c), Random, Away(n, c, t)) == Some(t)
  {
    var d := Away(n, c, t);
    StepOfSmall(d, n);
    hide Step;
    WrapsOnce(c + d, n);
  }

  lemma StepOfSmall(d: nat, n: nat)
    requires n >= 2 && 1 <= d < n
    ensures Step(d, n) == d
  {
    WrapsOnce(d, n);
  }

  lemma WrapsOnce(x: nat, n: nat)
    requires n > 0 && x < 2 * n
    ensures x % n == if x < n then x else x - n
  {
    if x >= n {
      assert x == n + (x - n);
      assert x / n == 1;
    }
  }

  lemma {:induction false} SequentialPosition(n: nat, k: nat)
    requires n > 0 && 1 <= k <= n + 1
    ensures NextTimes(n, None, Sequential, k) == if k <= n then Some(k - 1) else None
  {
    if k > 1 {
      SequentialPosition(n, k - 1);
    }
  }

  /** The position after `k` prevs. */
  ghost function PrevTimes(n: nat, c: Option<nat>, mode: Mode, k: nat): (c': Option<nat>)
    requires c.Some? ==> c.value < n
    ensures c'.Some? ==> c'.value < n
  {
    if k == 0 then c else PrevOf(n, PrevTimes(n, c, mode, k - 1), mode, 0)
  }

  /** In sequential mode the prevs go back track by track and stay at the first. */
  lemma {:induction false} SequentialBack(n: nat, c: nat, k: nat)
    requires c < n
    ensures PrevTimes(n, Some(c), Sequential, k) == Some(if k <= c then c - k else 0)
  {
    if k > 0 {
      SequentialBack(n, c, k - 1);
    }
  }

  /** In sequential mode prev undoes every next, also that behind the last track; next every prev but on the first. */
  lemma SequentialUndoes(n: nat, c: nat, r: nat, r': nat)
    requires c < n
    ensures PrevOf(n, NextOf(n, Some(c), Sequential, r), Sequential, r') == Some(c)
    ensures NextOf(n, PrevOf(n, Some(c), Sequential, r), Sequential, r') == Some(c) <==> c > 0
  {
  }

  /** In single mode any number of nexts or prevs plays the same track again, as in random mode a single track. */
  lemma {:induction false} SingleStays(n: nat, c: nat, k: nat)
    requires c < n
    ensures NextTimes(n, Some(c), Single, k) == Some(c) == PrevTimes(n, Some(c), Single, k)
    ensures n == 1 ==> NextTimes(n, Some(c), Random, k) == Some(c) == PrevTimes(n, Some(c), Random, k)
  {
    if k > 0 {
      SingleStays(n, c, k - 1);
    }
  }

  /** In every mode a stopped player starts with the first track on next, and with the last on prev. */
  lemma StoppedStarts(n: nat, mode: Mode, r: nat)
    ensures NextOf(n, None, mode, r) == if n == 0 then None else Some(0)
    ensures PrevOf(n, None, mode, r) == if n == 0 then None else Some(n - 1)
  {
  }

  // ---------- The heap ----------

  /** `RkPlayerInfo`, as far as the playlist fills it in. */
  class Music {
    const url: string
    const title: Option<string>
    var next: Music?
    var prev: Music?
    ghost var live: bool

    constructor (url: string, title: Option<string>)
      ensures this.url == url && this.title == title && next == null && prev == null && live
    {
      this.url, this.title, next, prev, live := url, title, null, null, true;
    }
  }

  const EINVAL := 22

  class Player {
    var start: Music?
    var end: Music?
    var current: Music?
    var cnt: nat
    var mode: Mode
    ghost var nodes: seq<Music>
    ghost var cursor: Option<nat>

    /** `next` and `prev` are inverse along the tracks, which are all live. */
    static ghost predicate Linked(tracks: seq<Music>)
      reads tracks
    {
      && (forall i {:trigger tracks[i].live} :: 0 <= i < |tracks| ==> tracks[i].live)
      && (forall i {:trigger tracks[i].next} :: 0 <= i < |tracks| ==>
            tracks[i].next == if i + 1 < |tracks| then tracks[i + 1] else null)
      && (forall i {:trigger tracks[i].prev} :: 0 <= i < |tracks| ==>
            tracks[i].prev == if i > 0 then tracks[i - 1] else null)
    }

    /** A doubly linked list of `cnt` distinct tracks with its extremes, and a current track in it, or none. */
    ghost predicate Valid()
      reads this, nodes
    {
      && cnt == |nodes| && Distinct(nodes) && Linked(nodes)
      && start == (if nodes == [] then null else nodes[0])
      && end == (if nodes == [] then null else nodes[|nodes| - 1])
      && (cursor.Some? ==> cursor.value < |nodes|)
      && current == (match cursor case None => null case Some(c) => nodes[c])
    }

    constructor ()
      ensures Valid() && nodes == [] && cursor == None && mode == Sequential
    {
      start, end, current, cnt, mode := null, null, null, 0, Sequential;
      nodes, cursor := [], None;
    }

    /** A track linked in behind the last one extends the list. */
    static lemma LinkedAppend(tracks: seq<Music>, m: Music)
      requires Distinct(tracks) && m !in tracks && m.live && m.next == null
      requires forall i {:trigger tracks[i].live} :: 0 <= i < |tracks| ==> tracks[i].live
      requires forall i {:trigger tracks[i].next} :: 0 <= i < |tracks| ==>
                 tracks[i].next == if i + 1 < |tracks| then tracks[i + 1] else m
      requires forall i {:trigger tracks[i].prev} :: 0 <= i < |tracks| ==>
                 tracks[i].prev == if i > 0 then tracks[i - 1] else null
      requires m.prev == if tracks == [] then null else tracks[|tracks| - 1]
      ensures Linked(tracks + [m]) && Distinct(tracks + [m])
    {
    }

    /** `RK_mediaplayer_add_music`; an empty title counts as none. */
    method AddMusic(title: Option<string>, url: string) returns (ret: int)
      requires Valid()
      modifies this, end
      ensures Valid() && cursor == old(cursor) && mode == old(mode)
      ensures url == "" ==> ret == -EINVAL && nodes == old(nodes)
      ensures url != "" ==> ret == 0 && end != null && fresh(end) && nodes == old(nodes) + [end] && end.url == url
      ensures url != "" ==> end.title == if title == Some("") then None else title
    {
      if url == "" {
        return -EINVAL;
      }
      if nodes != [] {
        DistinctFrom(nodes, |nodes| - 1);
      }
      hide Distinct;
      var music := new Music(url, if title.Some? && |title.value| > 0 then title else None);
      if end != null {
        assert end == nodes[|nodes| - 1] && end.live;
        music.prev := end;
        end.next := music;
        end := music;
      } else {
        start := music;
        end := music;
      }
      cnt := cnt + 1;
      LinkedAppend(nodes, music);
      nodes := nodes + [music];
      ret := 0;
    }

    /** `RK_mediaplayer_clear_playlist` */
    method Clear()
      requires Valid()
      modifies this, nodes
      ensures Valid() && nodes == [] && cursor == None && mode == old(mode)
      ensures forall m :: m in old(nodes) ==> !m.live
    {
      ghost var i := 0;
      while start != null
        invariant i <= |nodes| && start == (if i < |nodes| then nodes[i] else null)
        invariant forall j {:trigger nodes[j].live} :: 0 <= j < |nodes| ==> (nodes[j].live <==> j >= i)
        invariant forall j {:trigger nodes[j].next} :: 0 <= j < |nodes| ==>
                    nodes[j].next == if j + 1 < |nodes| then nodes[j + 1] else null
        invariant nodes == old(nodes) && Distinct(nodes) && mode == old(mode)
        decreases |nodes| - i
      {
        var tmp := start;
        assert tmp.live;
        start := tmp.next;
        tmp.live := false;
        i := i + 1;
      }
      start, end, current, cnt := null, null, null, 0;
      nodes, cursor := [], None;
    }

    /** The stepping loop of the random mode, which goes round at the end of the list. */
    method Walk(step: nat)
      requires Valid() && cursor.Some? && step < cnt
      modifies `current, `cursor
      ensures Valid() && cursor == Some((old(cursor).value + step) % cnt)
    {
      var left: nat := step;
      ghost var c, n := cursor.value, cnt;
      while left > 0
        invariant Valid() && cnt == n && left <= step
        invariant cursor.Some?
        invariant cursor.value == if c + (step - left) < n then c + (step - left) else c + (step - left) - n
      {
        assert current.live;
        current := current.next;
        if current == null {
          current := start;
        }
        cursor := Some(if cursor.value + 1 < cnt then cursor.value + 1 else 0);
        left := left - 1;
      }
      WrapsOnce(c + step, n);
    }

    /** `RK_mediaplayer_next`: the address to play, or none when the player is stopped; `r` is the value of `rand()`. */
    method Next(r: nat) returns (url: Option<string>)
      requires Valid()
      modifies `current, `cursor
      ensures Valid() && cursor == NextOf(cnt, old(cursor), mode, r)
      ensures url == match cursor case None => None case Some(c) => Some(nodes[c].url)
    {
      if current == null {
        if start != null {
          current := start;
          cursor := Some(0);
        }
      } else {
        assert current.live;
        match mode {
          case Sequential =>
            current := current.next;
            cursor := if cursor.value + 1 < cnt then Some(cursor.value + 1) else None;
          case Random =>
            if cnt > 1 {
              var step := r % cnt;
              if step == 0 {
                step := step + 1;
              }
              Walk(step);
            }
          case Single =>
          case Loop =>
            current := current.next;
            if current == null {
              current := start;
            }
            cursor := Some(if cursor.value + 1 < cnt then cursor.value + 1 else 0);
        }
      }
      url := if current == null then None else Some(current.url);
    }

    /** `RK_mediaplayer_prev` */
    method Prev(r: nat) returns (url: Option<string>)
      requires Valid()
      modifies `current, `cursor
      ensures Valid() && cursor == PrevOf(cnt, old(cursor), mode, r)
      ensures url == match cursor case None => None case Some(c) => Some(nodes[c].url)
    {
      if current == null {
        if end != null {
          current := end;
          cursor := Some(cnt - 1);
        }
      } else {
        assert current.live;
        match mode {
          case Sequential =>
            if current.prev != null {
              current := current.prev;
              cursor := Some(cursor.value - 1);
            }
          case Random =>
            if cnt > 1 {
              var step := r % cnt;
              if step == 0 {
                step := step + 1;
              }
              Walk(step);
            }
          case Single =>
          case Loop =>
            current := current.prev;
            if current == null {
              current := end;
            }
            cursor := Some(if cursor.value > 0 then cursor.value - 1 else cnt - 1);
        }
      }
      url := if current == null then None else Some(current.url);
    }

    /** `RK_mediaplayer_set_mode` */
    method SetMode(mode: Mode)
      requires Valid()
      modifies `mode
      ensures Valid() && this.mode == mode
    {
      this.mode := mode;
    }

    /** `RK_mediaplayer_start_playlist`: without a current track the last one is played, otherwise nothing is. */
    method StartPlaylist() returns (url: Option<string>)
      requires Valid()
      modifies `current, `cursor
      ensures Valid()
      ensures cursor == if old(cursor).None? && cnt > 0 then Some(cnt - 1) else old(cursor)
      ensures url == if old(cursor).None? && cnt > 0 then Some(nodes[cnt - 1].url) else None
    {
      url := None;
      if current == null {
        current := end;
        if current != null {
          cursor := Some(cnt - 1);
          url := Some(current.url);
        }
      }
    }
  }
}
