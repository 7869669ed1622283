/** The module packer writing an image to a file. */
module Packer {
  import opened Bytes
  import opened ModuleImage

  const BUFFER_SIZE: nat := 128

  /** A file open for reading; end of file shows only once a read has come up short. */
  class Source {
    const content: seq<byte>
    var pos: nat
    var eof: bool

    constructor (content: seq<byte>)
      ensures this.content == content && pos == 0 && !eof
    {
      this.content := content;
      pos := 0;
      eof := false;
    }

    method Read(n: nat) returns (chunk: seq<byte>)
      requires pos <= |content|
      modifies this
      ensures old(pos) <= pos <= |content| && chunk == content[old(pos)..pos]
      ensures eof ==> old(eof) || pos == |content|
      ensures !eof ==> pos == old(pos) + n
    {
      if pos + n <= |content| {
        chunk := content[pos..pos + n];
        pos := pos + n;
      } else {
        chunk := content[pos..];
        pos := |content|;
        eof := true;
      }
    }
  }

  /** A file open for writing. */
  class Target {
    var written: seq<byte>

    constructor ()
      ensures written == []
    {
      written := [];
    }

    method Write(bytes: seq<byte>)
      modifies this
      ensures written == old(written) + bytes
    {
      written := written + bytes;
    }

    /** All that is left of the source is appended, a buffer at a time. */
    method WriteFile(source: Source)
      requires source.pos == 0 && !source.eof
      modifies this, source
      ensures written == old(written) + source.content
    {
      while !source.eof
        invariant source.pos <= |source.content| && (source.eof ==> source.pos == |source.content|)
        invariant written == old(written) + source.content[..source.pos]
        decreases |source.content| - source.pos, if source.eof then 0 else 1
      {
        ghost var from := source.pos;
        var chunk := source.Read(BUFFER_SIZE);
        Write(chunk);
        assert source.content[..from] + chunk == source.content[..source.pos];
      }
    }

    method WriteSize(m: Module)
      modifies this
      ensures written == old(written) + U32(|m.content|)
    {
      Write(U32(|m.content|));
    }

    /** The path goes into a zero-padded buffer; as many bytes as the buffer holds are written from its base name on. */
    method WriteName(m: Module)
      requires Packable(m)
      modifies this
      ensures written == old(written) + NameField(m)
    {
      var buffer := m.path + Zeros(NAME_SIZE - |m.path|);
      var base := Base(m.path);
      Write((buffer + m.behind)[base..base + NAME_SIZE]);
      assert (buffer + m.behind)[base..base + NAME_SIZE] == NameField(m);
    }
  }

  method WriteModule(target: Target, m: Module)
    requires Packable(m)
    modifies target
    ensures target.written == old(target.written) + Encode(m)
  {
    var source := new Source(m.content);
    target.WriteSize(m);
    target.WriteFile(source);
    target.WriteName(m);
    AppendParts(old(target.written), m);
  }

  lemma AppendParts(written: seq<byte>, m: Module)
    requires Packable(m)
    ensures ((written + U32(|m.content|)) + m.content) + NameField(m) == written + Encode(m)
  {
    hide U32, NameField, Packable;
  }

  lemma AppendModule(written: seq<byte>, ms: seq<Module>)
    requires Input(ms) && ms != []
    ensures Packable(ms[0]) && Input(ms[1..]) && (written + Encode(ms[0])) + EncodeAll(ms[1..]) == written + EncodeAll(ms)
  {
    EncodeStep(ms);
    hide Encode, EncodeAll, Packable, Input;
  }

  /** The packed file is the kernel followed by the image of the modules, in the order of the command line. */
  method BuildImage(kernel: seq<byte>, ms: seq<Module>) returns (target: Target)
    requires Input(ms)
    ensures fresh(target) && target.written == kernel + Image(ms)
  {
    hide Encode, EncodeAll, Packable, Input, U32;
    target := new Target();
    var source := new Source(kernel);
    target.WriteFile(source);
    target.Write(U32(|ms|));
    var i := 0;
    ghost var head := kernel + U32(|ms|);
    assert ms[0..] == ms;
    while i < |ms|
      invariant 0 <= i <= |ms| && Input(ms[i..])
      invariant target.written + EncodeAll(ms[i..]) == head + EncodeAll(ms)
    {
      ghost var rest := ms[i..];
      AppendModule(target.written, rest);
      assert rest[0] == ms[i] && rest[1..] == ms[i + 1..];
      WriteModule(target, ms[i]);
      i := i + 1;
    }
    Done(ms, target.written, i);
  }

  lemma Done(ms: seq<Module>, written: seq<byte>, i: nat)
    requires i == |ms| && Input(ms[i..])
    ensures written + EncodeAll(ms[i..]) == written
  {
  }
}
