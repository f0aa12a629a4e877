# Gas-sensor interface shield firmware: bus latch, heater power and calibration tables

This project models the sequential core of the firmware of an air-quality
sensor shield built on an 8-bit AVR microcontroller. The shield hosts two
sensors, NO2 (index 0) and CO (index 1), and acts as a slave on a two-wire bus.

- **Bus command latch and response** (`egg_bus.dfy`, module `EggBus`). A master
  write (`onReceiveService`) always latches the command byte. It latches the
  sensor-index byte only for the SENSOR_COUNT and GET_CALCULATED_VALUE
  commands. A master read (`onRequestService`) always answers four bytes, most
  significant byte first:
  - SENSOR_COUNT gives `[0, 0, 0, 2]`.
  - GET_RAW_VALUE and GET_CALCULATED_VALUE give the 16-bit analog reading of
    the latched sensor in bytes 2-3.
  - Any other command gives four zeros.

  The egg_bus accessors become the two fields of class `SlaveBus`.
  `OnReceiveService` updates those fields in place. `OnRequestService` fills a
  zeroed 4-byte array. Both are proved against the functions `Receive` and
  `Response`, and module `EggBusProperties` proves the protocol properties about
  those two functions.
- **Heater power** (`heater.dfy`, module `Heater`). `manageHeater` computes
  `1000 * (supply - feedback) * feedback / R` in the target's unsigned
  arithmetic and then takes one of three branches against the target power:
  cool down, heat up, or hold. The actuation in those branches is not written
  in the firmware, so the observable result is the power and the branch taken.
  On the AVR, `int` is 16 bits and `uint16_t` is `unsigned int`, so
  `supply - feedback` wraps modulo 2^16, not 2^32. The products then wrap
  modulo 2^32. The model follows this exactly. It proves:
  - the result is exact for 10-bit readings with `feedback <= supply`;
  - what the wrap gives when `feedback > supply`;
  - the result does not depend on the four arguments, because the body uses
    the NO2 constants throughout.
- **Calibration tables** (`interpolation.dfy`, module `Interpolation`). These
  are the constant NO2 and CO (x, y) tables, each closed by a `(0xff, 0xff)`
  terminator row, plus the integer scaler inverses. The model proves that
  each table's x column rises strictly and that the first terminator row ends
  each table. It also proves that getTableValue returns 0xff exactly at that
  row.

`board.dfy` (module `Board`) holds the machine integer widths and the sensor
count N = 2.

Several constants live in headers that are not part of this model:
- the EGG_BUS_COMMAND_* codes (egg_bus.h);
- the ADC channel numbers, HEATER_FEEDBACK_RESISTANCE and
  NO2_HEATER_TARGET_POWER_MW (main.h).

They are parameters instead: the `CommandCodes` and `HeaterConstants`
records. Each has a predicate for what the source needs of it: pairwise
distinct switch labels, and a non-zero divisor. Hardware reads become
parameters too:
- `sensorReading(i)` stands for `analogRead(egg_bus_map_to_analog_pin(i))`;
- `analogRead(ch)` stands for the ADC code of channel `ch`.

## Model

| member | source | states |
|---|---|---|
| EggBus.Classify | src/main.c:67-89 | a latched byte is SENSOR_COUNT, GET_RAW_VALUE or GET_CALCULATED_VALUE exactly when it equals that code; every other byte is unrecognised |
| EggBus.Receive | src/main.c:99-110 | after a write the command is `inBytes[0]` whatever it was. The index becomes `inBytes[1]` for SENSOR_COUNT and GET_CALCULATED_VALUE. For every other command the index is unchanged |
| EggBus.SlaveBus.OnReceiveService | src/main.c:99-110 | the latched command and index after the call are `Receive` of the latch before it; `numBytes` is not consulted |
| EggBus.Response | src/main.c:62-93 | the response is exactly 4 bytes and bytes 0-1 are zero. SENSOR_COUNT gives `[0,0,0,N]`. The raw and calculated commands give `r[2]*256 + r[3]` equal to the reading of the latched sensor. Any other command gives four zeros |
| EggBus.SlaveBus.OnRequestService | src/main.c:62-94 | the buffer handed to the transmitter is `Response` of the latched command and index. The method changes no state |
| EggBusProperties.ReceiveIdempotent | src/main.c:101-109 | repeating a write leaves the latch as the first write left it |
| EggBusProperties.ReceiveOverwrites | src/main.c:101-109 | an index-latching write fixes the whole latch whatever it held before. After any other write, two latches agree exactly when their old indices agree. The command is always the one written |
| EggBusProperties.ResponseReadsOnlyLatch | src/main.c:78-89 | the response depends only on the latch and on the reading of the latched sensor, so repeated reads with no write between them take the same branch and sample the same sensor, and transmit the same bytes while that sensor's reading is unchanged |
| EggBusProperties.SensorCountRequest | src/main.c:79-80 | after writing `[SENSOR_COUNT, i]` a read answers `[0,0,0,2]`, and `i` is latched as the index |
| EggBusProperties.CalculatedValueRequest | src/main.c:82-87 | after writing `[GET_CALCULATED_VALUE, i]`, bytes 2-3 of the read are sensor `i`'s reading, most significant byte first |
| EggBusProperties.RawValueRequestKeepsIndex | src/main.c:104-109 | after writing `[GET_RAW_VALUE, i]` the read samples the previously latched sensor, not `i` |
| EggBusProperties.UnknownCommandRequest | src/main.c:78-89 | after writing any byte that is not one of the three codes, the read answers four zeros |
| Heater.PowerMw | src/main.c:123 | the computed power is a 32-bit value and times the resistance stays below 2^32 |
| Heater.ManageHeater | src/main.c:112-135 | the power is PowerMw of the NO2 supply and feedback channels. The branch is cool down iff power > target, heat up iff power < target, and hold iff power == target |
| Heater.PowerZeroWhenEqual | src/main.c:123 | equal supply and feedback readings give zero power |
| Heater.PowerExact | src/main.c:123 | with `feedback <= supply` and `1000*(supply-feedback)*feedback < 2^32`, the power is the exact integer quotient |
| Heater.PowerExactForTenBitReadings | src/main.c:113-123 | for 10-bit readings with `feedback <= supply <= 1023` the product never overflows, so the power is exact |
| Heater.PowerWrapsWhenFeedbackAbove | src/main.c:123 | when `supply < feedback <= 1023`, the 16-bit subtraction yields `2^16 - (feedback - supply)` and the power is computed from that |
| Heater.PowerOfInvertedReadings | src/main.c:123 | readings supply 0 and feedback 1 give a power of 65535000 / R rather than a negative value |
| Heater.ManageHeaterIgnoresArguments | src/main.c:112-131 | two calls with different channel, resistance and target arguments have the same outcome |
| Heater.ManageHeaterEqualReadings | src/main.c:123-134 | equal NO2 readings give power 0. That means heat up, or hold when the target is 0 |
| Interpolation.TableFor | src/interpolation.c:47-54 | sensor index 0 selects the NO2 table and every other index the CO table |
| Interpolation.DataRows | src/interpolation.c:14 | the number of data rows is the position of the first terminator x. Every row before it has a different x |
| Interpolation.GetTableValue | src/interpolation.c:23-57 | for column 0 the result is the x of the selected row and for column 1 its y. The column must be 0 or 1 and the row at most the terminator row |
| Interpolation.GetIndependentScalerInverse | src/interpolation.c:71-73 | for sensors 0 and 1 only, the result times the decimal independent scaler is exactly 1: 10000 * 0.0001 and 2500 * 0.0004 |
| InterpolationProperties.AscendingXPairwise | src/interpolation.c:25 | when each x is below the next, any earlier row's x is below any later row's x |
| InterpolationProperties.TableShapes | src/interpolation.c:26-45 | NO2 has 8 data rows and CO 5. Each ends in a `(0xff, 0xff)` row, which is the last row |
| InterpolationProperties.TablesAscending | src/interpolation.c:25-45 | both tables are in strictly ascending x order, terminator row included |
| InterpolationProperties.XColumnAscending | src/interpolation.c:25-53 | getTableValue's x column is strictly increasing in the row index for either sensor |
| InterpolationProperties.TerminatorMarksEnd | src/interpolation.c:26-53 | getTableValue returns 0xff in either column exactly at the terminator row; no data row holds 0xff |

## Left out

- `main`: its initialisation (LEDs, TWI address and callbacks, heater enables, `sei`) and its endless loop calling manageHeater for NO2 and CO (src/main.c:30-59). These are hardware set-up and an unbounded loop. One pass is `ManageHeater`.
- `blinkLEDs` and the first switch of onRequestService that calls it (src/main.c:67-75, 139-145). These only toggle LEDs with delays.
- `analogRead`, `egg_bus_map_to_analog_pin`, `twi_transmit` and the egg_bus accessors are foreign code. They become parameters and the two `SlaveBus` fields. The initial latch values come from egg_bus.c, which is not part of this model, so they are constructor parameters.
- Preemption of the heater loop by bus interrupts is concurrency and is not modelled. Each handler is modelled as one sequential step.
- The float arrays `x_scaler`, `y_scaler` and `independent_scaler`, and the pointer-returning getters `get_p_x_scaler`, `get_p_y_scaler` and `get_p_independent_scaler`. These are floating point and raw byte views of floats. `independent_scaler` appears only as exact decimal ten-thousandths, to state what the integer inverse means.
- src/digipot.h holds only constants and prototypes. manageHeater's branches do not call it yet.
- Heater.PowerMw: its own contract gives only the range bound. The exact value in each regime is stated by the Heater lemmas listed above.
