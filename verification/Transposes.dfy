// The choice between the three transposes of a 128 x 128 bit matrix.
module Transposes {
  import opened Blocks
  import opened BitMatrix
  import AvxTranspose

  // bmi2 is how the library was built, sse2 what the processor supports.
  datatype Cpu = Cpu(bmi2: bool, sse2: bool)

  // MatrixTranspose128.
  method MatrixTranspose(inout: array<Block>, cpu: Cpu)
    requires inout.Length == 128
    modifies inout
    ensures inout[..] == Transpose(old(inout[..]))
  {
    hide *;
    if cpu.bmi2 {
      AvxTranspose.AvxTranspose(inout);
    } else if cpu.sse2 {
      SseTranspose(inout);
    } else {
      EklundhTranspose(inout);
    }
  }
}
