/** A musician: a name and whether they play in a band or solo. */
module Musicians {
  import opened Text

  /** `Musician(name, is_band_member=True)`: both fields are stored as given, and a
      musician is a band member unless said otherwise. */
  datatype Musician = Musician(name: string, isBandMember: bool := true)

  /** `str(m)`: the name, then whether they are a band member or a solo musician. */
  function ToString(m: Musician): string
  {
    m.name + ", " + (if m.isBandMember then "band member" else "solo musician")
  }

  /** `m == other` for another musician: same name and same band membership. */
  predicate Equals(m: Musician, other: Musician)
  {
    other.name == m.name && other.isBandMember == m.isBandMember
  }

  /** Equality of musicians is equality of the two fields, so it is reflexive and symmetric. */
  lemma EqualsIsSameValue(a: Musician, b: Musician)
    ensures Equals(a, b) <==> a == b
    ensures Equals(a, a) && (Equals(a, b) <==> Equals(b, a))
  {
  }

  /** `str` tells musicians apart: two musicians print the same exactly when they are equal. */
  lemma ToStringInjective(a: Musician, b: Musician)
    ensures ToString(a) == ToString(b) <==> Equals(a, b)
  {
    if ToString(a) == ToString(b) {
      var sa := ToString(a);
      var ta := if a.isBandMember then "band member" else "solo musician";
      var tb := if b.isBandMember then "band member" else "solo musician";
      assert sa == a.name + ", " + ta;
      assert sa == b.name + ", " + tb;
      assert sa[|sa| - 1] == ta[|ta| - 1];
      assert sa[|sa| - 1] == tb[|tb| - 1];
      assert a.isBandMember == b.isBandMember;
      assert a.name == sa[..|sa| - |ta| - 2];
      assert b.name == sa[..|sa| - |tb| - 2];
    }
  }

  lemma DefaultIsBandMember(name: string)
    ensures Musician(name).isBandMember && Musician(name).name == name
  {
  }

  // ---------------------------------------------------------------- play

  const RhythmCountKey := "rhythm_count"

  /** Keyword arguments, in the order the caller wrote them. */
  type Kwargs = seq<(string, string)>

  predicate HasKey(kwargs: Kwargs, k: string)
  {
    exists i :: 0 <= i < |kwargs| && kwargs[i].0 == k
  }

  /** The value given for the `rhythm_count` keyword, or the empty string when there is none. */
  function RhythmCount(kwargs: Kwargs): string
  {
    if kwargs == [] then ""
    else if kwargs[0].0 == RhythmCountKey then kwargs[0].1
    else RhythmCount(kwargs[1..])
  }

  /** The values of every keyword argument except `rhythm_count`, in order. */
  function OtherValues(kwargs: Kwargs): seq<string>
  {
    if kwargs == [] then []
    else (if kwargs[0].0 == RhythmCountKey then [] else [kwargs[0].1]) + OtherValues(kwargs[1..])
  }

  /** The messages: the values of all other keywords, in order, separated by single spaces;
      empty when no keyword was given at all. */
  function Messages(kwargs: Kwargs): string
  {
    if kwargs == [] then "" else Join(" ", OtherValues(kwargs))
  }

  /** `m.play(song_title, *args, **kwargs)`. */
  function Play(m: Musician, songTitle: string, args: seq<string>, kwargs: Kwargs): string
  {
    m.name + " playing: " + RhythmCount(kwargs) + "! - " + songTitle + " - " + Join(" ", args) + " " + Messages(kwargs)
  }

  /** `m.play_song(...)` hands its arguments to `play` unchanged. */
  function PlaySong(m: Musician, songTitle: string, args: seq<string>, kwargs: Kwargs): (r: string)
    ensures r == Play(m, songTitle, args, kwargs)
  {
    Play(m, songTitle, args, kwargs)
  }

  /** The rhythm count is the value given for `rhythm_count`, wherever it stands among the keywords. */
  lemma {:induction false} RhythmCountFound(before: Kwargs, v: string, after: Kwargs)
    requires !HasKey(before, RhythmCountKey)
    ensures RhythmCount(before + [(RhythmCountKey, v)] + after) == v
    decreases |before|
  {
    var kw := before + [(RhythmCountKey, v)] + after;
    if before == [] {
      assert kw[0] == (RhythmCountKey, v);
    } else {
      assert before[0].0 != RhythmCountKey;
      assert kw[1..] == before[1..] + [(RhythmCountKey, v)] + after;
      assert !HasKey(before[1..], RhythmCountKey) by {
        forall i | 0 <= i < |before[1..]| ensures before[1..][i].0 != RhythmCountKey {
          assert before[1..][i] == before[i + 1];
        }
      }
      RhythmCountFound(before[1..], v, after);
    }
  }

  /** Without a `rhythm_count` keyword the rhythm count is empty. */
  lemma {:induction false} RhythmCountAbsent(kwargs: Kwargs)
    requires !HasKey(kwargs, RhythmCountKey)
    ensures RhythmCount(kwargs) == ""
    decreases |kwargs|
  {
    if kwargs != [] {
      assert kwargs[0].0 != RhythmCountKey;
      assert !HasKey(kwargs[1..], RhythmCountKey) by {
        forall i | 0 <= i < |kwargs[1..]| ensures kwargs[1..][i].0 != RhythmCountKey {
          assert kwargs[1..][i] == kwargs[i + 1];
        }
      }
      RhythmCountAbsent(kwargs[1..]);
    }
  }

  lemma {:induction false} OtherValuesAppend(a: Kwargs, b: Kwargs)
    ensures OtherValues(a + b) == OtherValues(a) + OtherValues(b)
    decreases |a|
  {
    if a == [] {
      assert a + b == b;
    } else {
      assert (a + b)[1..] == a[1..] + b;
      OtherValuesAppend(a[1..], b);
    }
  }

  lemma {:induction false} JoinAppend(sep: string, parts: seq<string>, x: string)
    ensures Join(sep, parts + [x]) == if parts == [] then x else Join(sep, parts) + sep + x
    decreases |parts|
  {
    if |parts| >= 2 {
      assert (parts + [x])[1..] == parts[1..] + [x];
      JoinAppend(sep, parts[1..], x);
    } else if |parts| == 1 {
      assert (parts + [x])[1..] == [x];
    }
  }

  /** A `rhythm_count` keyword, wherever it stands, never shows among the messages. */
  lemma MessagesSkipRhythmCount(before: Kwargs, v: string, after: Kwargs)
    ensures Messages(before + [(RhythmCountKey, v)] + after) == Messages(before + after)
  {
    var withRc := before + [(RhythmCountKey, v)] + after;
    OtherValuesAppend(before + [(RhythmCountKey, v)], after);
    OtherValuesAppend(before, [(RhythmCountKey, v)]);
    OtherValuesAppend(before, after);
    assert OtherValues([(RhythmCountKey, v)]) == [];
    assert OtherValues(withRc) == OtherValues(before + after);
    assert withRc != [];
    if before + after == [] {
      assert OtherValues(withRc) == [];
    }
  }

  /** Each further keyword other than `rhythm_count` adds its value after one more space. */
  lemma MessagesAppend(kwargs: Kwargs, k: string, v: string)
    requires k != RhythmCountKey
    ensures Messages(kwargs + [(k, v)])
         == if OtherValues(kwargs) == [] then v else Messages(kwargs) + " " + v
  {
    OtherValuesAppend(kwargs, [(k, v)]);
    assert OtherValues([(k, v)]) == [v];
    JoinAppend(" ", OtherValues(kwargs), v);
  }

  /** With nothing but a title, the separators of the format all remain. */
  lemma PlayTitleOnly(m: Musician, songTitle: string)
    ensures Play(m, songTitle, [], []) == m.name + " playing: ! - " + songTitle + " -  "
  {
  }

  /** The call made in the module's demonstration: the rhythm count goes up front, the
      `end` keyword's message goes last, after the gratitude. */
  lemma PlayDemo()
    ensures Play(Musician("John Lennon"), "I Saw Her Standing There", ["Thank you!"],
                 [("rhythm_count", "One, two, three, four"), ("end", "Good night!")])
         == "John Lennon" + " playing: " + "One, two, three, four" + "! - " + "I Saw Her Standing There" + " - "
            + "Thank you!" + " " + "Good night!"
  {
    var kw := [("rhythm_count", "One, two, three, four"), ("end", "Good night!")];
    assert kw[1..] == [("end", "Good night!")];
    assert RhythmCount(kw) == "One, two, three, four";
    assert OtherValues(kw[1..][1..]) == [];
    assert OtherValues(kw) == ["Good night!"];
    assert Messages(kw) == "Good night!";
  }
}
