// The SMB parser (app-layer-smb.c): the header readers with their fast and slow
// paths and the part of the driver that calls them.
module SmbParser {
  import opened Bytes
  import opened SmbHeaders

  class SmbState {
    var bytesProcessed: nat
    var nbssType: byte
    var nbssLength: Data
    var smb: Fields
    var andxcommand: byte
    var maxchainedandx: nat
    var transactionId: nat

    ghost function Value(): Smb
      reads this
    {
      Smb(bytesProcessed, nbssType, nbssLength, smb, andxcommand, maxchainedandx, transactionId)
    }

    constructor ()
      ensures Value().bytes == 0 && Value().transactionId == 0
    {
      bytesProcessed, nbssType, nbssLength := 0, 0, [0, 0, 0];
      smb := Fields(0, [0, 0, 0, 0], 0, [0, 0], [0, 0], [0, 0, 0, 0, 0, 0, 0, 0], [0, 0], [0, 0], [0, 0], [0, 0]);
      andxcommand, maxchainedandx, transactionId := 0, 0, 0;
    }

    // The session header: at once, or the next bytes of it. Behind its third
    // byte nothing is read.
    method NBSSParseHeader(input: Data) returns (r: nat)
      requires input != []
      modifies this
      ensures var s := old(Value());
        if s.bytes >= NBSS_HDR_LEN - 1 then r == 0 && Value() == s
        else r == NbssPart(s, input) && Value() == NbssBytes(s, input[..r])
    {
      if bytesProcessed >= NBSS_HDR_LEN - 1 {
        return 0;
      }
      if bytesProcessed == 0 && |input| >= NBSS_HDR_LEN {
        NbssStages(Value(), input);
        andxcommand := NO_ANDX;
        maxchainedandx := MAX_CHAINED;
        nbssType := input[0];
        nbssLength := Lead(input[1] % 2, 3);
        nbssLength := OrAt(nbssLength, 1, input[2]);
        nbssLength := OrAt(nbssLength, 2, input[3]);
        bytesProcessed := bytesProcessed + NBSS_HDR_LEN;
        return 4;
      }
      r := SlowNbss(input);
    }

    method SlowNbss(input: Data) returns (p: nat)
      requires input != [] && bytesProcessed < NBSS_HDR_LEN - 1
      modifies this
      ensures p == NbssPart(old(Value()), input) && Value() == NbssBytes(old(Value()), input[..p])
    {
      var at := bytesProcessed;
      p := 0;
      ghost var s := Value();
      assert input[..0] == [];
      while p < |input| && at < NBSS_HDR_LEN
        invariant 0 <= p <= |input| && at == s.bytes + p <= NBSS_HDR_LEN
        invariant Value().(bytes := at) == NbssBytes(s, input[..p]) && bytesProcessed == s.bytes
      {
        assert input[..p + 1][..p] == input[..p];
        if at == 0 {
          andxcommand := NO_ANDX;
          maxchainedandx := MAX_CHAINED;
          nbssType := input[p];
        } else if at == 1 {
          nbssLength := Lead(input[p] % 2, 3);
        } else {
          nbssLength := OrAt(nbssLength, at - 1, input[p]);
        }
        at, p := at + 1, p + 1;
      }
      bytesProcessed := bytesProcessed + p;
    }

    // The SMB header at once.
    method DecodeHeader(p: Data)
      requires |p| == SMB_HDR_LEN
      modifies this`smb
      ensures smb == Decode(p)
    {
      var status := OrAt(OrAt(OrAt(Lead(p[5], 4), 1, p[6]), 2, p[7]), 3, p[8]);
      assert status == p[5..9];
      var signature := OrAt(OrAt(OrAt(Lead(p[14], 8), 1, p[15]), 2, p[16]), 3, p[17]);
      signature := OrAt(OrAt(OrAt(OrAt(signature, 4, p[18]), 5, p[19]), 6, p[20]), 7, p[21]);
      assert signature == p[14..22];
      Pair(p, 10); Pair(p, 12); Pair(p, 24); Pair(p, 26); Pair(p, 28); Pair(p, 30);
      smb := Fields(p[4], status, p[9], OrAt(Lead(p[10], 2), 1, p[11]), OrAt(Lead(p[12], 2), 1, p[13]), signature,
                    OrAt(Lead(p[24], 2), 1, p[25]), OrAt(Lead(p[26], 2), 1, p[27]),
                    OrAt(Lead(p[28], 2), 1, p[29]), OrAt(Lead(p[30], 2), 1, p[31]));
    }

    method SMBParseHeader(input: Data) returns (r: int)
      requires input != [] && NBSS_HDR_LEN <= bytesProcessed && bytesProcessed + |input| <= HDRS_LEN
      modifies this
      ensures var s := old(Value());
        match FieldBytes(s.fields, s.bytes - NBSS_HDR_LEN, input)
        case None => r == -1 && Value() == s
        case Some(f) => r == |input| && Value() == s.(fields := f, bytes := s.bytes + |input|)
    {
      if bytesProcessed == NBSS_HDR_LEN && |input| >= SMB_HDR_LEN {
        ByteByByteIsDecode(smb, input);
        if input[..4] != [0xFF, 0x53, 0x4D, 0x42] {
          return -1;
        }
        DecodeHeader(input);
        bytesProcessed := bytesProcessed + SMB_HDR_LEN;
        return 32;
      }
      r := SlowHeader(input);
    }

    method SlowHeader(input: Data) returns (r: int)
      requires input != [] && NBSS_HDR_LEN <= bytesProcessed && bytesProcessed + |input| <= HDRS_LEN
      modifies this
      ensures var s := old(Value());
        match FieldBytes(s.fields, s.bytes - NBSS_HDR_LEN, input)
        case None => r == -1 && Value() == s
        case Some(f) => r == |input| && Value() == s.(fields := f, bytes := s.bytes + |input|)
    {
      var at, p := bytesProcessed - NBSS_HDR_LEN, 0;
      ghost var s := Value();
      while p < |input|
        invariant 0 <= p <= |input| && at == s.bytes - NBSS_HDR_LEN + p
        invariant Value() == s.(fields := smb) && (at <= 4 ==> smb == s.fields)
        invariant FieldBytes(s.fields, s.bytes - NBSS_HDR_LEN, input) == FieldBytes(smb, at, input[p..])
      {
        assert input[p..][1..] == input[p + 1..];
        if at < 4 && input[p] != Magic(at) {
          return -1;
        }
        smb := FieldByte(smb, at, input[p]);
        at, p := at + 1, p + 1;
      }
      bytesProcessed := bytesProcessed + p;
      return p;
    }

    // Behind the session header, up to the end of the call.
    method ParseMessage(input: Data)
      requires input != [] ==> NBSS_HDR_LEN <= bytesProcessed && bytesProcessed + |input| <= HDRS_LEN
      modifies this
      ensures var s := old(Value());
        Value() ==
          if s.ntype != SESSION_MESSAGE then s.(bytes := 0)
          else if input == [] then EndOfCall(s)
          else
            match FieldBytes(s.fields, s.bytes - NBSS_HDR_LEN, input)
            case None => s.(bytes := 0)
            case Some(f) => EndOfCall(s.(fields := f, bytes := s.bytes + |input|))
    {
      if nbssType == SESSION_MESSAGE {
        if input != [] && bytesProcessed >= NBSS_HDR_LEN && bytesProcessed < NBSS_HDR_LEN + SMB_HDR_LEN {
          var r := SMBParseHeader(input);
          if r == -1 {
            bytesProcessed := 0;
            return;
          }
        }
        if bytesProcessed >= Value3(nbssLength) + NBSS_HDR_LEN || maxchainedandx == 0 {
          bytesProcessed := 0;
          transactionId := (transactionId + 1) % 0x1_0000;
        }
      } else {
        bytesProcessed := 0;
      }
    }

    // A chunk that ends inside or right behind the two headers.
    method SMBParse(input0: Data)
      requires input0 != [] && bytesProcessed + |input0| <= HDRS_LEN
      modifies this
      ensures Value() == Call(old(Value()), input0)
    {
      var input := input0;
      ghost var n := NbssPart(Value(), input0);
      NbssCount(Value(), input0[..n]);
      if bytesProcessed < NBSS_HDR_LEN {
        var r := NBSSParseHeader(input);
        if r == 0 {
          bytesProcessed := 0;
          return;
        }
        input := input[r..];
      }
      assert input == input0[n..] && (n == 0 ==> input0[..n] == []);
      ParseMessage(input);
    }
  }
}
