/** C strings as the byte sequences before their terminator, and the `<string.h>` searches the engines use. */
module CStrings {

  /** A byte other than the terminator, read as `unsigned char`. */
  type Byte = c: char | 0 < c as int < 256 witness 'a'

  type Text = seq<Byte>

  const SLASH: Text := "/"

  datatype Option<+T> = None | Some(value: T)

  /** The buffer holds `text` as a C string. */
  ghost predicate Holds(buffer: seq<char>, text: Text) {
    |text| < |buffer| && buffer[..|text|] == text && buffer[|text|] == '\0'
  }

  predicate OccursAt(text: Text, part: Text, at: nat) {
    at + |part| <= |text| && text[at..at + |part|] == part
  }

  /** `strstr`, as an offset from `from` on: the first occurrence. */
  function Find(text: Text, part: Text, from: nat := 0): (at: Option<nat>)
    requires from <= |text|
    ensures at.Some? ==> from <= at.value && OccursAt(text, part, at.value)
    ensures forall k :: from <= k && (at.Some? ==> k < at.value) ==> !OccursAt(text, part, k)
    decreases |text| - from
  {
    if OccursAt(text, part, from) then Some(from)
    else if from == |text| then None
    else Find(text, part, from + 1)
  }

  /** What stands before the first `/`, or everything: `strchr` and `strlen`. */
  function UpToSlash(text: Text): (part: Text)
    ensures part <= text && '/' !in part
    ensures part == text || text[|part|] == '/'
  {
    if text == [] || text[0] == '/' then [] else [text[0]] + UpToSlash(text[1..])
  }

  lemma {:induction false} UpToSlashWhole(c: Text, rest: Text)
    requires '/' !in c && (rest == [] || rest[0] == '/')
    ensures UpToSlash(c + rest) == c
  {
    if c == [] {
      assert c + rest == rest;
    } else {
      assert (c + rest)[1..] == c[1..] + rest;
      UpToSlashWhole(c[1..], rest);
    }
  }
}
